/** The directed weighted graph of Graph.h and Graph.cpp: `V` vertices, each
    with the set of its outgoing edges. Two edges are the same edge when their
    source and destination agree; the weight takes no part
    (`Edge::DirectedEqual`). Since `addEdge` files an edge under its own
    source, an adjacency set is modelled as a map from destination to the
    weight of the edge that holds that slot. */
module Graphs {
  import opened Vertex

  datatype Edge = Edge(src: int, dest: int, weight: int)

  /** `Edge::DirectedEqual`. */
  predicate DirectedEqual(a: Edge, b: Edge)
  {
    a.src == b.src && a.dest == b.dest
  }

  /** Both endpoints are vertices of a graph with `V` vertices. */
  predicate InRange(V: int, e: Edge)
  {
    0 <= e.src < V && 0 <= e.dest < V
  }

  /** The range test of `addEdge` and `removeEdge` as written: an edge is
      rejected only when an endpoint is at or above `V`. */
  predicate RejectedAsWritten(V: int, e: Edge)
  {
    V <= e.src || V <= e.dest
  }

  /** The written test lets a negative source through, which then indexes
      `adj[-1]`. */
  lemma NegativeSourcePasses()
    ensures !RejectedAsWritten(1, Edge(-1, 0, 0)) && !InRange(1, Edge(-1, 0, 0))
  {
  }

  /** On non-negative endpoints the written test and the range test agree. */
  lemma RejectedAsWrittenAgrees(V: int, e: Edge)
    requires 0 <= e.src && 0 <= e.dest
    ensures RejectedAsWritten(V, e) <==> !InRange(V, e)
  {
  }

  /** `unordered_set::insert`: an edge joins the set unless an edge with the
      same destination is already there, which then keeps its weight. */
  function Added(s: map<int, int>, e: Edge): (s': map<int, int>)
    ensures s'.Keys == s.Keys + {e.dest}
    ensures forall d :: d in s ==> s'[d] == s[d]
    ensures e.dest !in s ==> s'[e.dest] == e.weight
  {
    if e.dest in s then s else s[e.dest := e.weight]
  }

  /** `unordered_set::erase`: the edge with the same destination leaves. */
  function Removed(s: map<int, int>, e: Edge): (s': map<int, int>)
    ensures s'.Keys == s.Keys - {e.dest}
    ensures forall d :: d in s' ==> s'[d] == s[d]
  {
    s - {e.dest}
  }

  /** Adding an edge that is already there, under any weight, changes nothing. */
  lemma AddedTwice(s: map<int, int>, e: Edge, f: Edge)
    requires e.dest == f.dest
    ensures Added(Added(s, e), f) == Added(s, e)
  {
  }

  /** Removing what was just added gives back a set without that edge, and
      the original set when the edge was new. */
  lemma RemovedAfterAdded(s: map<int, int>, e: Edge)
    ensures Removed(Added(s, e), e) == Removed(s, e)
    ensures e.dest !in s ==> Removed(Added(s, e), e) == s
  {
  }

  /** The adjacency sets after `e` is added to its source's set. */
  function AddTo(a: seq<map<int, int>>, e: Edge): (a': seq<map<int, int>>)
    requires 0 <= e.src < |a|
    ensures |a'| == |a| && a'[e.src] == Added(a[e.src], e)
    ensures forall s :: 0 <= s < |a| && s != e.src ==> a'[s] == a[s]
  {
    a[e.src := Added(a[e.src], e)]
  }

  /** Every edge ends at one of the vertices: what the range test of
      `addEdge` keeps true of a graph. */
  ghost predicate Closed(a: seq<map<int, int>>)
  {
    forall s, d :: 0 <= s < |a| && d in a[s] ==> 0 <= d < |a|
  }

  /** Adding an edge that passed the range test keeps every edge inside. */
  lemma AddToClosed(a: seq<map<int, int>>, e: Edge)
    requires Closed(a) && InRange(|a|, e)
    ensures Closed(AddTo(a, e))
  {
    var a' := AddTo(a, e);
    forall s, d | 0 <= s < |a'| && d in a'[s] ensures 0 <= d < |a'| {
      if s != e.src {
        assert d in a[s];
      }
    }
  }

  /** The adjacency sets `Graph(V, edges)` builds: `V` empty sets, then every
      edge added in order. */
  function Built(V: nat, edges: seq<Edge>): (a: seq<map<int, int>>)
    requires forall i :: 0 <= i < |edges| ==> InRange(V, edges[i])
    ensures |a| == V
  {
    if |edges| == 0 then seq(V, _ => map[])
    else
      assert InRange(V, edges[|edges| - 1]);
      AddTo(Built(V, edges[..|edges| - 1]), edges[|edges| - 1])
  }

  /** The position of the first edge from `s` to `d`, if any. */
  function FirstEdge(edges: seq<Edge>, s: int, d: int): (k: nat)
    ensures k <= |edges|
    ensures k < |edges| ==> edges[k].src == s && edges[k].dest == d
    ensures forall i :: 0 <= i < k ==> !(edges[i].src == s && edges[i].dest == d)
  {
    if |edges| == 0 then 0
    else if edges[0].src == s && edges[0].dest == d then 0
    else 1 + FirstEdge(edges[1..], s, d)
  }

  /** The graph built from a list of edges has an edge from `s` to `d` iff the
      list has one, and it carries the weight of the first such edge. */
  lemma {:induction false} BuiltEdges(V: nat, edges: seq<Edge>, s: int, d: int)
    requires forall i :: 0 <= i < |edges| ==> InRange(V, edges[i])
    requires 0 <= s < V
    ensures d in Built(V, edges)[s] <==> FirstEdge(edges, s, d) < |edges|
    ensures d in Built(V, edges)[s] ==> Built(V, edges)[s][d] == edges[FirstEdge(edges, s, d)].weight
  {
    if |edges| > 0 {
      var init := edges[..|edges| - 1];
      var e := edges[|edges| - 1];
      BuiltEdges(V, init, s, d);
      FirstEdgeOfPrefix(edges, s, d);
    }
  }

  /** The first edge of a list is the first one of its prefix, or failing
      that the last edge when it matches. */
  lemma {:induction false} FirstEdgeOfPrefix(edges: seq<Edge>, s: int, d: int)
    requires |edges| > 0
    ensures var k := FirstEdge(edges[..|edges| - 1], s, d);
            FirstEdge(edges, s, d) == if k < |edges| - 1 then k
                                      else if edges[|edges| - 1].src == s && edges[|edges| - 1].dest == d then |edges| - 1
                                      else |edges|
  {
    if |edges| > 1 && !(edges[0].src == s && edges[0].dest == d) {
      FirstEdgeOfPrefix(edges[1..], s, d);
      assert edges[..|edges| - 1][1..] == edges[1..][..|edges| - 2];
    }
  }

  class Graph {
    const V: nat
    /** `adj[s]`: the edges out of vertex `s`, as destination to weight. */
    const adj: array<map<int, int>>

    ghost predicate Valid()
      reads adj
    {
      adj.Length == V && Closed(adj[..])
    }

    /** The adjacency sets as a sequence. */
    ghost function Adjacency(): seq<map<int, int>>
      reads adj
    {
      adj[..]
    }

    /** `Graph(int V)` once `V` has passed its check: `V` empty sets. */
    constructor (V: nat)
      ensures Valid() && this.V == V && fresh(adj)
      ensures Adjacency() == seq(V, _ => map[])
    {
      this.V := V;
      adj := new map<int, int>[V](_ => map[]);
      new;
      assert forall s :: 0 <= s < V ==> adj[..][s] == map[];
    }

    /** `addEdge(edge)`: `invalid_argument` when an endpoint is not a vertex
        (the corrected range test, see `RejectedAsWritten`); otherwise whether
        the edge was new, and only its source's set changes. */
    method AddEdge(e: Edge) returns (r: Result<bool>)
      requires Valid()
      modifies adj
      ensures Valid()
      ensures r.Failure? <==> !InRange(V, e)
      ensures r.Failure? ==> r.error == InvalidArgument && Adjacency() == old(Adjacency())
      ensures r.Success? ==> r.value == (e.dest !in old(adj[e.src]))
      ensures r.Success? ==> Adjacency() == AddTo(old(Adjacency()), e)
    {
      if !InRange(V, e) {
        return Failure(InvalidArgument);
      }
      AddToClosed(adj[..], e);
      var isNew := e.dest !in adj[e.src];
      adj[e.src] := Added(adj[e.src], e);
      return Success(isNew);
    }

    /** `removeEdge(edge)`: the same range test; otherwise whether an edge
        with the same endpoints was erased, and only its source's set changes. */
    method RemoveEdge(e: Edge) returns (r: Result<bool>)
      requires Valid()
      modifies adj
      ensures Valid()
      ensures r.Failure? <==> !InRange(V, e)
      ensures r.Failure? ==> r.error == InvalidArgument && Adjacency() == old(Adjacency())
      ensures r.Success? ==> r.value == (e.dest in old(adj[e.src]))
      ensures r.Success? ==> Adjacency() == old(Adjacency())[e.src := Removed(old(adj[e.src]), e)]
    {
      if !InRange(V, e) {
        return Failure(InvalidArgument);
      }
      var found := e.dest in adj[e.src];
      adj[e.src] := Removed(adj[e.src], e);
      return Success(found);
    }

    /** `hasEdge(edge)`: whether `edge.src`'s set holds an edge to
        `edge.dest`, whatever its weight. */
    function HasEdge(e: Edge): (b: bool)
      reads adj
      requires Valid() && 0 <= e.src < V
      ensures b <==> exists d :: d in adj[e.src] && DirectedEqual(Edge(e.src, d, adj[e.src][d]), e)
    {
      assert DirectedEqual(Edge(e.src, e.dest, 0), e);
      e.dest in adj[e.src]
    }
  }

  /** `Graph(int V)`: `invalid_argument` for a negative count, otherwise a
      graph of `V` vertices and no edges. */
  method NewGraph(V: int) returns (r: Result<Graph>)
    ensures r.Failure? <==> V < 0
    ensures r.Failure? ==> r.error == InvalidArgument
    ensures r.Success? ==> fresh(r.value) && fresh(r.value.adj) && r.value.Valid() && r.value.V == V
    ensures r.Success? ==> r.value.Adjacency() == seq(V, _ => map[])
  {
    if V < 0 {
      return Failure(InvalidArgument);
    }
    var g := new Graph(V);
    return Success(g);
  }

  /** `Graph(int V, edges)`: the checks of `Graph(V)` and of every `addEdge`,
      whose exception leaves the constructor; otherwise the graph `Built`
      from the edges. */
  method FromEdges(V: int, edges: seq<Edge>) returns (r: Result<Graph>)
    ensures r.Failure? <==> V < 0 || exists i :: 0 <= i < |edges| && !InRange(V, edges[i])
    ensures r.Failure? ==> r.error == InvalidArgument
    ensures r.Success? ==> fresh(r.value) && fresh(r.value.adj) && r.value.Valid() && r.value.V == V
    ensures r.Success? ==> r.value.Adjacency() == Built(V, edges)
  {
    if V < 0 {
      return Failure(InvalidArgument);
    }
    var g := new Graph(V);
    var k := 0;
    while k < |edges|
      invariant 0 <= k <= |edges| && g.Valid() && g.V == V && fresh(g) && fresh(g.adj)
      invariant forall i :: 0 <= i < k ==> InRange(V, edges[i])
      invariant g.Adjacency() == Built(V, edges[..k])
    {
      var added := g.AddEdge(edges[k]);
      if added.Failure? {
        return Failure(InvalidArgument);
      }
      assert edges[..k + 1][..k] == edges[..k];
      k := k + 1;
    }
    assert edges[..k] == edges;
    return Success(g);
  }
}
