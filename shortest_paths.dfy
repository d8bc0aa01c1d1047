/** What the two Dijkstra drivers of Graph.cpp compute, stated over the
    adjacency sets and the per-vertex labels they return, and the
    invariant of their main loop, step by step.

    A vertex is settled once its label's `isRemoved` is set. The ghost map
    `order` records when each vertex was settled; it only serves to show
    that following `parent` links always ends. */
module ShortestPaths {
  import opened Vertex
  import opened Graphs

  type Adj = seq<map<int, int>>

  /** The labels `verticesData`, by vertex. */
  type Labels = map<int, VertexInfo>

  /** The weights the drivers are meant for: none negative, and none so
      large that `distance + weight` could leave a 32-bit `int` while the
      distance is below `Unreached`. */
  ghost predicate Light(adj: Adj)
  {
    forall s, d :: 0 <= s < |adj| && d in adj[s] ==> 0 <= adj[s][d] <= INT_MAX - Unreached
  }

  /** A walk along edges, one vertex after another. */
  ghost predicate IsPath(adj: Adj, p: seq<int>)
  {
    && |p| > 0
    && (forall i :: 0 <= i < |p| ==> 0 <= p[i] < |adj|)
    && (forall i :: 0 <= i < |p| - 1 ==> p[i + 1] in adj[p[i]])
  }

  /** The sum of the weights along a walk. */
  ghost function Weight(adj: Adj, p: seq<int>): int
    requires IsPath(adj, p)
    decreases |p|
  {
    if |p| == 1 then 0
    else
      assert IsPath(adj, p[..|p| - 1]);
      Weight(adj, p[..|p| - 1]) + adj[p[|p| - 2]][p[|p| - 1]]
  }

  /** A walk extended by one edge is a walk, one edge heavier. */
  lemma Extend(adj: Adj, p: seq<int>, v: int)
    requires IsPath(adj, p) && 0 <= v < |adj| && v in adj[p[|p| - 1]]
    ensures IsPath(adj, p + [v]) && Weight(adj, p + [v]) == Weight(adj, p) + adj[p[|p| - 1]][v]
  {
    var q := p + [v];
    assert q[..|p|] == p;
    forall i | 0 <= i < |q| - 1 ensures q[i + 1] in adj[q[i]] {
      if i < |p| - 1 {
        assert q[i] == p[i] && q[i + 1] == p[i + 1];
      }
    }
    assert IsPath(adj, q);
    assert q[|q| - 2] == p[|p| - 1] && q[|q| - 1] == v;
  }

  /** The labels are one per vertex `0 .. V-1`, each carrying its vertex. */
  ghost predicate Labelled(V: int, data: Labels)
  {
    && (forall v :: v in data <==> 0 <= v < V)
    && (forall v :: v in data ==> data[v].vertex == v)
  }

  /** `source` is at distance 0 with no parent; every distance lies between
      0 and `Unreached`, and a vertex still at `Unreached` has no parent. */
  ghost predicate Bounded(source: int, data: Labels)
  {
    && source in data && data[source].distance == 0 && data[source].parent == -1
    && (forall v :: v in data ==> 0 <= data[v].distance <= Unreached)
    && (forall v :: v in data && data[v].distance == Unreached ==> data[v].parent == -1)
  }

  /** A vertex other than `source` with a finite distance got it over the
      edge from its parent, which was settled then and earlier than the
      vertex itself. */
  ghost predicate Linked(adj: Adj, source: int, data: Labels, order: map<int, nat>, v: int)
    requires v in data
  {
    v != source && data[v].distance < Unreached ==>
      var p := data[v].parent;
      && p in data && 0 <= p < |adj| && data[p].isRemoved && p in order && v in adj[p]
      && data[v].distance == data[p].distance + adj[p][v]
      && (data[v].isRemoved ==> v in order && order[p] < order[v])
  }

  /** Every settled vertex was settled before step `t`; every label is
      `Linked`. */
  ghost predicate Tree(adj: Adj, source: int, data: Labels, order: map<int, nat>, t: nat)
  {
    && (forall v :: v in data && data[v].isRemoved ==> v in order && order[v] < t)
    && (forall v {:trigger Linked(adj, source, data, order, v)} :: v in data ==> Linked(adj, source, data, order, v))
  }

  /** No settled vertex is farther than an unsettled one. */
  ghost predicate SettledFirst(data: Labels)
  {
    forall x, y :: x in data && y in data && data[x].isRemoved && !data[y].isRemoved ==> data[x].distance <= data[y].distance
  }

  /** The edges from `x` to the vertices of `ds` are relaxed: going over
      one would not shorten its destination's distance. */
  ghost predicate RelaxedFrom(adj: Adj, data: Labels, x: int, ds: set<int>)
    requires x in data && 0 <= x < |adj|
  {
    forall y :: y in ds && y in adj[x] && y in data ==> data[y].distance <= data[x].distance + adj[x][y]
  }

  /** Every settled vertex other than `except` has all its edges relaxed. */
  ghost predicate Relaxed(adj: Adj, data: Labels, except: int)
  {
    forall x {:trigger RelaxedFrom(adj, data, x, adj[x].Keys)} :: x in data && 0 <= x < |adj| && data[x].isRemoved && x != except ==> RelaxedFrom(adj, data, x, adj[x].Keys)
  }

  /** Everything that holds at the head of `while (!heap.isEmpty())` after
      `t` vertices have been settled. */
  ghost predicate Progress(adj: Adj, source: int, data: Labels, order: map<int, nat>, t: nat)
  {
    && Closed(adj) && Light(adj) && Labelled(|adj|, data) && Bounded(source, data)
    && Tree(adj, source, data, order, t) && SettledFirst(data) && Relaxed(adj, data, -1)
  }

  /** Everything that holds inside the edge loop of the settled vertex `u`
      once the edges to `done` have been looked at. */
  ghost predicate Relaxing(adj: Adj, source: int, data: Labels, order: map<int, nat>, t: nat, u: int, done: set<int>)
  {
    && Closed(adj) && Light(adj) && Labelled(|adj|, data) && Bounded(source, data)
    && Tree(adj, source, data, order, t) && SettledFirst(data) && Relaxed(adj, data, u)
    && u in data && data[u].isRemoved
    && RelaxedFrom(adj, data, u, done)
    && (forall x :: x in data && data[x].isRemoved ==> data[x].distance <= data[u].distance)
  }

  /** What both drivers return: every vertex settled, every label `Linked`
      and every edge relaxed. */
  ghost predicate Final(adj: Adj, source: int, data: Labels, order: map<int, nat>)
  {
    && Closed(adj) && Light(adj) && Labelled(|adj|, data) && Bounded(source, data)
    && (forall v :: v in data ==> data[v].isRemoved && v in order)
    && (forall v {:trigger Linked(adj, source, data, order, v)} :: v in data ==> Linked(adj, source, data, order, v))
    && Relaxed(adj, data, -1)
  }

  /** The labels the drivers start from: every vertex at `Unreached`
      with no parent, except `source` at 0. */
  ghost function Initial(V: int, source: int): Labels
  {
    map v | v in Vertices(V) :: VertexInfo(v, if v == source then 0 else Unreached, -1, false)
  }

  /** The vertex numbers `0 .. V-1`. */
  ghost function Vertices(V: int): (r: set<int>)
    ensures forall v :: v in r <==> 0 <= v < V
    decreases V
  {
    if V <= 0 then {} else Vertices(V - 1) + {V - 1}
  }

  /** The labels not yet settled: what the heap holds. */
  ghost function Unsettled(data: Labels): Labels
  {
    map v | v in data && !data[v].isRemoved :: data[v]
  }

  /** Before the loop nothing is settled and only `source` is reached, so
      the invariant holds at step 0. */
  lemma Start(adj: Adj, source: int)
    requires Closed(adj) && Light(adj) && 0 <= source < |adj|
    ensures Progress(adj, source, Initial(|adj|, source), map[], 0)
    ensures Unsettled(Initial(|adj|, source)) == Initial(|adj|, source)
  {
  }

  /** Settling `u`, a least unsettled vertex, at step `t`: its edges are
      still to be looked at, and no settled vertex is farther than it. */
  lemma Settle(adj: Adj, source: int, data: Labels, order: map<int, nat>, t: nat, u: int)
    requires Progress(adj, source, data, order, t) && u in data && !data[u].isRemoved
    requires forall y :: y in data && !data[y].isRemoved ==> data[u].distance <= data[y].distance
    ensures Relaxing(adj, source, data[u := data[u].(isRemoved := true)], order[u := t], t + 1, u, {})
    ensures Unsettled(data[u := data[u].(isRemoved := true)]) == Unsettled(data) - {u}
  {
    var data' := data[u := data[u].(isRemoved := true)];
    var order' := order[u := t];
    forall v | v in data' ensures Linked(adj, source, data', order', v) {
      assert Linked(adj, source, data, order, v);
    }
    forall x | x in data' && 0 <= x < |adj| && data'[x].isRemoved && x != u ensures RelaxedFrom(adj, data', x, adj[x].Keys) {
      assert RelaxedFrom(adj, data, x, adj[x].Keys);
    }
  }

  /** The edge from `u` to `dst`, when it is not taken: `dst` is settled
      already, or the distance over `u` is not below its own. */
  lemma Skip(adj: Adj, source: int, data: Labels, order: map<int, nat>, t: nat, u: int, done: set<int>, dst: int)
    requires Relaxing(adj, source, data, order, t, u, done) && 0 <= u < |adj| && dst in adj[u]
    requires data[dst].isRemoved || data[u].distance + adj[u][dst] >= data[dst].distance
    ensures Relaxing(adj, source, data, order, t, u, done + {dst})
  {
    if data[dst].isRemoved {
      assert data[dst].distance <= data[u].distance;
    }
  }

  /** The edge from `u` to the unsettled `dst`, when it shortens `dst`'s
      distance: `dst` takes that distance and `u` as parent. */
  lemma Improve(adj: Adj, source: int, data: Labels, order: map<int, nat>, t: nat, u: int, done: set<int>, dst: int)
    requires Relaxing(adj, source, data, order, t, u, done) && 0 <= u < |adj| && dst in adj[u]
    requires !data[dst].isRemoved && data[u].distance + adj[u][dst] < data[dst].distance
    ensures data[u].distance + adj[u][dst] <= INT_MAX
    ensures Relaxing(adj, source, data[dst := data[dst].(distance := data[u].distance + adj[u][dst], parent := u)], order, t, u, done + {dst})
    ensures Unsettled(data[dst := data[dst].(distance := data[u].distance + adj[u][dst], parent := u)])
            == Unsettled(data)[dst := data[dst].(distance := data[u].distance + adj[u][dst], parent := u)]
  {
    var data' := data[dst := data[dst].(distance := data[u].distance + adj[u][dst], parent := u)];
    ImprovedLabels(adj, source, data, u, dst);
    ImprovedTree(adj, source, data, order, t, u, dst);
    ImprovedRelaxed(adj, data, u, done, dst);
    Assembled(adj, source, data', order, t, u, done + {dst});
    Relabelled(data, dst, data'[dst]);
  }

  /** `Relaxing`, from its parts. */
  lemma Assembled(adj: Adj, source: int, data: Labels, order: map<int, nat>, t: nat, u: int, done: set<int>)
    requires Closed(adj) && Light(adj) && Labelled(|adj|, data) && Bounded(source, data)
    requires Tree(adj, source, data, order, t) && SettledFirst(data) && Relaxed(adj, data, u)
    requires u in data && data[u].isRemoved && 0 <= u < |adj| && RelaxedFrom(adj, data, u, done)
    requires forall x :: x in data && data[x].isRemoved ==> data[x].distance <= data[u].distance
    ensures Relaxing(adj, source, data, order, t, u, done)
  {
  }

  /** Relabelling a vertex the heap holds relabels it in the heap. */
  lemma Relabelled(data: Labels, v: int, info: VertexInfo)
    requires v in data && !data[v].isRemoved && !info.isRemoved
    ensures Unsettled(data[v := info]) == Unsettled(data)[v := info]
  {
  }

  lemma ImprovedLabels(adj: Adj, source: int, data: Labels, u: int, dst: int)
    requires Labelled(|adj|, data) && Bounded(source, data) && SettledFirst(data) && u in data && data[u].isRemoved
    requires forall x :: x in data && data[x].isRemoved ==> data[x].distance <= data[u].distance
    requires 0 <= u < |adj| && dst in adj[u] && dst in data && !data[dst].isRemoved
    requires 0 <= adj[u][dst] && data[u].distance + adj[u][dst] < data[dst].distance
    ensures dst != u && dst != source
    ensures var data' := data[dst := data[dst].(distance := data[u].distance + adj[u][dst], parent := u)];
            Labelled(|adj|, data') && Bounded(source, data') && SettledFirst(data')
    ensures var data' := data[dst := data[dst].(distance := data[u].distance + adj[u][dst], parent := u)];
            forall x :: x in data' && data'[x].isRemoved ==> data'[x].distance <= data'[u].distance
  {
  }

  lemma ImprovedTree(adj: Adj, source: int, data: Labels, order: map<int, nat>, t: nat, u: int, dst: int)
    requires Labelled(|adj|, data) && Tree(adj, source, data, order, t) && u in data && data[u].isRemoved
    requires 0 <= u < |adj| && dst in adj[u] && dst in data && !data[dst].isRemoved && dst != source
    ensures Tree(adj, source, data[dst := data[dst].(distance := data[u].distance + adj[u][dst], parent := u)], order, t)
  {
    var data' := data[dst := data[dst].(distance := data[u].distance + adj[u][dst], parent := u)];
    forall v | v in data' ensures Linked(adj, source, data', order, v) {
      assert Linked(adj, source, data, order, v);
    }
  }

  lemma ImprovedRelaxed(adj: Adj, data: Labels, u: int, done: set<int>, dst: int)
    requires Labelled(|adj|, data) && Relaxed(adj, data, u) && u in data && 0 <= u < |adj| && RelaxedFrom(adj, data, u, done)
    requires data[u].isRemoved && dst in adj[u] && dst in data && !data[dst].isRemoved
    requires 0 <= data[u].distance + adj[u][dst] < data[dst].distance
    ensures Relaxed(adj, data[dst := data[dst].(distance := data[u].distance + adj[u][dst], parent := u)], u)
    ensures RelaxedFrom(adj, data[dst := data[dst].(distance := data[u].distance + adj[u][dst], parent := u)], u, done + {dst})
  {
    var data' := data[dst := data[dst].(distance := data[u].distance + adj[u][dst], parent := u)];
    forall x | x in data' && 0 <= x < |adj| && data'[x].isRemoved && x != u ensures RelaxedFrom(adj, data', x, adj[x].Keys) {
      assert RelaxedFrom(adj, data, x, adj[x].Keys);
    }
  }

  /** Once every edge of `u` has been looked at, the loop invariant holds
      again, one step further. */
  lemma Settled(adj: Adj, source: int, data: Labels, order: map<int, nat>, t: nat, u: int)
    requires 0 <= u < |adj| && Relaxing(adj, source, data, order, t, u, adj[u].Keys)
    ensures Progress(adj, source, data, order, t)
  {
  }

  /** When nothing is left unsettled the loop has computed `Final`. */
  lemma Finish(adj: Adj, source: int, data: Labels, order: map<int, nat>, t: nat)
    requires Progress(adj, source, data, order, t) && Unsettled(data) == map[]
    ensures Final(adj, source, data, order)
  {
    forall v | v in data ensures data[v].isRemoved {
      assert v !in Unsettled(data);
    }
  }

  /** Following `parent` from any label stays inside the labels and ends:
      what the path loop of `printDijkstraResults` needs. */
  ghost predicate Chased(data: Labels, order: map<int, nat>)
  {
    forall v :: v in data ==>
      && v in order
      && (data[v].parent != -1 ==> data[v].parent in data && data[v].parent in order && order[data[v].parent] < order[v])
  }

  lemma FinalChased(adj: Adj, source: int, data: Labels, order: map<int, nat>)
    requires Final(adj, source, data, order)
    ensures Chased(data, order)
  {
    forall v | v in data && data[v].parent != -1 ensures data[v].parent in data && data[v].parent in order && order[data[v].parent] < order[v] {
      assert Linked(adj, source, data, order, v);
    }
  }

  /** The vertices from the end of `v`'s parent chain to `v`. */
  ghost function Ancestry(data: Labels, order: map<int, nat>, v: int): (c: seq<int>)
    requires Chased(data, order) && v in data
    ensures |c| > 0 && c[|c| - 1] == v && c[0] in data && data[c[0]].parent == -1
    decreases order[v]
  {
    if data[v].parent == -1 then [v] else Ancestry(data, order, data[v].parent) + [v]
  }

  /** On `Final` labels every path from `source` is at least as heavy as
      the distance of the vertex it ends at. */
  lemma {:induction false} LowerBound(adj: Adj, source: int, data: Labels, order: map<int, nat>, p: seq<int>)
    requires Final(adj, source, data, order) && IsPath(adj, p) && p[0] == source
    ensures data[p[|p| - 1]].distance <= Weight(adj, p)
    decreases |p|
  {
    if |p| > 1 {
      var q := p[..|p| - 1];
      assert IsPath(adj, q) && q[0] == source;
      LowerBound(adj, source, data, order, q);
      var x, y := p[|p| - 2], p[|p| - 1];
      assert y in adj[x] && data[x].isRemoved;
      assert RelaxedFrom(adj, data, x, adj[x].Keys);
    }
  }

  /** On `Final` labels the parent chain of `v` starts at `source` exactly
      when `v` is reached, and is then a path whose weight is `v`'s
      distance. */
  lemma {:induction false} TreePath(adj: Adj, source: int, data: Labels, order: map<int, nat>, v: int)
    requires Final(adj, source, data, order) && Chased(data, order) && v in data
    ensures Ancestry(data, order, v)[0] == source <==> data[v].distance < Unreached
    ensures data[v].distance < Unreached ==>
              IsPath(adj, Ancestry(data, order, v)) && Weight(adj, Ancestry(data, order, v)) == data[v].distance
    decreases order[v]
  {
    assert Linked(adj, source, data, order, v);
    var p := data[v].parent;
    if p != -1 {
      TreePath(adj, source, data, order, p);
      assert data[v].distance < Unreached;
      assert data[p].distance <= data[v].distance;
      Extend(adj, Ancestry(data, order, p), v);
    }
  }

  /** Dijkstra's promise: on `Final` labels a reached vertex's distance is
      the weight of some path from `source`, and no path from `source` to
      it is lighter; an unreached one has no path lighter than
      `Unreached`. */
  lemma Shortest(adj: Adj, source: int, data: Labels, order: map<int, nat>, v: int)
    requires Final(adj, source, data, order) && v in data
    ensures forall p :: IsPath(adj, p) && p[0] == source && p[|p| - 1] == v ==> data[v].distance <= Weight(adj, p)
    ensures data[v].distance < Unreached ==>
              exists p :: IsPath(adj, p) && p[0] == source && p[|p| - 1] == v && Weight(adj, p) == data[v].distance
  {
    forall p | IsPath(adj, p) && p[0] == source && p[|p| - 1] == v ensures data[v].distance <= Weight(adj, p) {
      LowerBound(adj, source, data, order, p);
    }
    FinalChased(adj, source, data, order);
    TreePath(adj, source, data, order, v);
  }

  /** Any two `Final` labellings agree on every distance: the drivers may
      pick different parents between equally short paths, never different
      distances. */
  lemma SameDistances(adj: Adj, source: int, data1: Labels, order1: map<int, nat>, data2: Labels, order2: map<int, nat>)
    requires Final(adj, source, data1, order1) && Final(adj, source, data2, order2)
    ensures data1.Keys == data2.Keys
    ensures forall v :: v in data1 ==> data1[v].distance == data2[v].distance
  {
    assert forall v :: v in data1 <==> v in data2;
    forall v | v in data1 ensures data1[v].distance == data2[v].distance {
      Shortest(adj, source, data1, order1, v);
      Shortest(adj, source, data2, order2, v);
    }
  }
}
