/** The heap-ordered forest a FibonacciHeap keeps in its arena: which rings
    hold the roots and the children of every node, and the facts that stay
    true while the pointer surgery of FibonacciHeap.h rearranges them. */
module FibForest {
  import opened Vertex
  import opened FibRings

  /** Trigger-only wrapper for arena membership: the per-node quantifiers
      below fire on it, never on `n in ns`, so following a `parent` pointer
      does not start a chain of instantiations up the tree. */
  ghost predicate Live(ns: Arena, n: NodeRef)
  {
    n in ns
  }

  /** `kids[n]` is `n`'s child ring, starting at `n.child`, of `degree` nodes. */
  ghost predicate ChildRing(ns: Arena, kids: map<NodeRef, seq<NodeRef>>, n: NodeRef)
    requires n in ns && n in kids
  {
    && Ring(ns, kids[n])
    && ns[n].degree == |kids[n]|
    && ns[n].child == (if |kids[n]| == 0 then null else kids[n][0])
  }

  /** The children of `n` point back at it, and `n` is in its parent's ring. */
  ghost predicate Adopted(ns: Arena, kids: map<NodeRef, seq<NodeRef>>, n: NodeRef)
    requires n in ns && n in kids
  {
    && (forall i :: 0 <= i < |kids[n]| ==> kids[n][i] in ns && ns[kids[n][i]].parent == n)
    && (ns[n].parent != null ==> ns[n].parent in ns && ns[n].parent in kids && n in kids[ns[n].parent])
  }

  /** Every node has a (ghost) child sequence, parents and children agree,
      the listed roots have no parent, and the child sequence of every node
      outside `open` is its well-formed child ring. */
  ghost predicate Forest(ns: Arena, roots: seq<NodeRef>, kids: map<NodeRef, seq<NodeRef>>, open: set<NodeRef>)
  {
    && kids.Keys == ns.Keys
    && (forall i :: 0 <= i < |roots| ==> roots[i] in ns && ns[roots[i]].parent == null)
    && (forall n {:trigger Live(ns, n)} :: n in ns && Live(ns, n) ==> Adopted(ns, kids, n) && (n !in open ==> ChildRing(ns, kids, n)))
  }

  /** Every parentless node is one of `roots`. */
  ghost predicate Covered(ns: Arena, roots: seq<NodeRef>)
  {
    forall n {:trigger Live(ns, n)} :: n in ns && Live(ns, n) && ns[n].parent == null ==> n in roots
  }

  /** Ghost ranks strictly grow from child to parent: the forest is acyclic. */
  ghost predicate Ranked(ns: Arena, rank: map<NodeRef, nat>, bound: nat)
  {
    && rank.Keys == ns.Keys
    && (forall n {:trigger Live(ns, n)} :: n in ns && Live(ns, n) ==>
          rank[n] < bound && (ns[n].parent != null ==> ns[n].parent in rank && rank[n] < rank[ns[n].parent]))
  }

  /** Heap order: no node other than `v` has a key below its parent's. */
  ghost predicate Ordered(ns: Arena, v: NodeRef?)
  {
    forall n {:trigger Live(ns, n)} :: n in ns && Live(ns, n) && n != v && ns[n].parent != null ==>
      ns[n].parent in ns && ns[ns[n].parent].key.distance <= ns[n].key.distance
  }

  /** `ns'` differs from `ns` at most in the `left`/`right` links of `S`. */
  ghost predicate LinksOnly(ns: Arena, ns': Arena, S: set<NodeRef>)
  {
    && ns'.Keys == ns.Keys
    && (forall n {:trigger Live(ns, n)} :: n in ns && Live(ns, n) ==>
          if n in S then ns'[n] == ns[n].(left := ns'[n].left, right := ns'[n].right) else ns'[n] == ns[n])
  }

  /** Relinking nodes that sit in no child ring keeps the forest. */
  lemma ForestRelink(ns: Arena, ns': Arena, roots: seq<NodeRef>, roots': seq<NodeRef>, kids: map<NodeRef, seq<NodeRef>>, open: set<NodeRef>, S: set<NodeRef>)
    requires Forest(ns, roots, kids, open) && LinksOnly(ns, ns', S)
    requires forall y :: y in S ==> y in ns && (ns[y].parent == null || (ns[y].parent in kids && y !in kids[ns[y].parent]))
    requires forall i :: 0 <= i < |roots'| ==> roots'[i] in ns && ns[roots'[i]].parent == null
    ensures Forest(ns', roots', kids, open)
  {
    forall i | 0 <= i < |roots'| ensures roots'[i] in ns' && ns'[roots'[i]].parent == null {
      assert Live(ns, roots'[i]);
    }
    forall n: NodeRef | Live(ns', n) ensures Adopted(ns', kids, n) && (n !in open ==> ChildRing(ns', kids, n)) {
      assert Live(ns, n);
      var K := kids[n];
      forall i | 0 <= i < |K| ensures K[i] in ns' && ns'[K[i]].parent == n {
        assert Live(ns, K[i]);
      }
      if ns[n].parent != null {
        assert Live(ns, ns[n].parent);
      }
      if n !in open {
        forall i | 0 <= i < |K| ensures K[i] in ns && K[i] in ns' && ns'[K[i]].left == ns[K[i]].left && ns'[K[i]].right == ns[K[i]].right {
          assert Live(ns, K[i]);
        }
        RingFrame(ns, ns', K);
      }
    }
  }

  /** Relinking changes no key, parent or rank. */
  lemma TreeRelink(ns: Arena, ns': Arena, S: set<NodeRef>, rank: map<NodeRef, nat>, bound: nat, v: NodeRef?)
    requires LinksOnly(ns, ns', S)
    ensures Ranked(ns, rank, bound) ==> Ranked(ns', rank, bound)
    ensures Ordered(ns, v) ==> Ordered(ns', v)
    ensures forall n :: n in ns ==> ns'[n].key == ns[n].key && ns'[n].parent == ns[n].parent
  {
    forall n | n in ns ensures ns'[n].key == ns[n].key && ns'[n].parent == ns[n].parent {
      assert Live(ns, n);
    }
    if Ranked(ns, rank, bound) {
      forall n: NodeRef | Live(ns', n) ensures rank[n] < bound && (ns'[n].parent != null ==> ns'[n].parent in rank && rank[n] < rank[ns'[n].parent]) {
        assert Live(ns, n);
      }
    }
    if Ordered(ns, v) {
      forall n: NodeRef | Live(ns', n) && n != v && ns'[n].parent != null
        ensures ns'[n].parent in ns' && ns'[ns'[n].parent].key.distance <= ns'[n].key.distance
      {
        assert Live(ns, n);
        assert Live(ns, ns[n].parent);
      }
    }
  }

  /** A parentless node of the relinked arena was parentless before. */
  lemma CoveredRelink(ns: Arena, ns': Arena, S: set<NodeRef>, roots: seq<NodeRef>, roots': seq<NodeRef>)
    requires LinksOnly(ns, ns', S) && Covered(ns, roots)
    requires forall y :: y in roots ==> y in roots'
    ensures Covered(ns', roots')
  {
    forall n: NodeRef | Live(ns', n) && ns'[n].parent == null ensures n in roots' {
      assert Live(ns, n);
    }
  }

  /** The node `new FibonacciHeapNode(key)` builds: no parent, no child, and
      linked to itself. */
  function Singleton(key: VertexInfo, x: NodeRef): (n: Node)
    ensures n.left == x && n.right == x && n.parent == null && n.child == null && n.degree == 0
  {
    Node(key, 0, false, null, x, x, null)
  }

  /** A new node is a parentless root whose ring is still to be linked. */
  lemma AddRoot(ns: Arena, roots: seq<NodeRef>, kids: map<NodeRef, seq<NodeRef>>, rank: map<NodeRef, nat>, bound: nat, x: NodeRef, key: VertexInfo)
    requires Forest(ns, roots, kids, {}) && Covered(ns, roots) && Ranked(ns, rank, bound) && Ordered(ns, null)
    requires Ring(ns, roots) && x !in ns
    ensures Forest(ns[x := Singleton(key, x)], roots, kids[x := []], {})
    ensures Covered(ns[x := Singleton(key, x)], roots + [x])
    ensures Ranked(ns[x := Singleton(key, x)], rank[x := 0], bound + 1)
    ensures Ordered(ns[x := Singleton(key, x)], null)
    ensures Ring(ns[x := Singleton(key, x)], roots)
  {
    var ns' := ns[x := Singleton(key, x)];
    var kids' := kids[x := []];
    forall n: NodeRef | Live(ns', n) ensures Adopted(ns', kids', n) && ChildRing(ns', kids', n) {
      if n != x {
        assert Live(ns, n);
        forall i | 0 <= i < |kids[n]| ensures kids[n][i] != x {
        }
        RingFrame(ns, ns', kids[n]);
        if ns[n].parent != null {
          assert Live(ns, ns[n].parent);
        }
      } else {
        RingEmpty(ns');
      }
    }
    forall n: NodeRef | Live(ns', n) && ns'[n].parent == null ensures n in roots + [x] {
      if n != x {
        assert Live(ns, n);
      }
    }
    forall n: NodeRef | Live(ns', n) ensures rank[x := 0][n] < bound + 1 && (ns'[n].parent != null ==> ns'[n].parent in rank[x := 0] && rank[x := 0][n] < rank[x := 0][ns'[n].parent]) {
      if n != x {
        assert Live(ns, n);
      }
    }
    forall n: NodeRef | Live(ns', n) && ns'[n].parent != null ensures ns'[n].parent in ns' && ns'[ns'[n].parent].key.distance <= ns'[n].key.distance {
      assert Live(ns, n);
      assert Live(ns, ns[n].parent);
    }
    RingFrame(ns, ns', roots);
  }

  /** `attachToRootList(x)`: `x` is linked in just left of `m`. */
  function Attached(ns: Arena, m: NodeRef, x: NodeRef): (r: Arena)
    requires m in ns && x in ns && ns[m].left in ns
    ensures r.Keys == ns.Keys
  {
    var last := ns[m].left;
    var ns1 := ns[last := ns[last].(right := x)];
    var ns2 := ns1[x := ns1[x].(right := m)];
    var ns3 := ns2[x := ns2[x].(left := ns2[m].left)];
    ns3[m := ns3[m].(left := x)]
  }

  /** Attaching to a ring read from `m` appends `x` at the ring's end, and
      relinks only `m`, the former last node and `x`. */
  lemma AttachedRing(ns: Arena, s: seq<NodeRef>, x: NodeRef)
    requires Ring(ns, s) && |s| > 0 && x in ns && x !in s
    ensures s[0] in ns && ns[s[0]].left == s[|s| - 1]
    ensures Ring(Attached(ns, s[0], x), s + [x])
    ensures LinksOnly(ns, Attached(ns, s[0], x), {s[0], s[|s| - 1], x})
  {
    LeftOf(ns, s, 0);
    var ns' := Attached(ns, s[0], x);
    forall i | 0 < i < |s| ensures ns'[s[i]].left == ns[s[i]].left {
    }
    forall i | 0 <= i < |s| - 1 ensures ns'[s[i]].right == ns[s[i]].right {
    }
    RingAppend(ns, ns', s, x);
  }

  /** `node->left->right = node->right; node->right->left = node->left`. */
  function Unlinked(ns: Arena, x: NodeRef): (r: Arena)
    requires x in ns && ns[x].left in ns && ns[x].right in ns
    ensures r.Keys == ns.Keys
  {
    var ns1 := ns[ns[x].left := ns[ns[x].left].(right := ns[x].right)];
    ns1[ns1[x].right := ns1[ns1[x].right].(left := ns1[x].left)]
  }

  /** Unlinking `s[j]` leaves the rest of its ring a ring, and relinks only
      its two neighbours. */
  lemma UnlinkedRing(ns: Arena, s: seq<NodeRef>, j: int)
    requires Ring(ns, s) && 0 <= j < |s|
    ensures s[j] in ns && ns[s[j]].left in ns && ns[s[j]].right in ns
    ensures Ring(Unlinked(ns, s[j]), s[..j] + s[j + 1..])
    ensures LinksOnly(ns, Unlinked(ns, s[j]), {ns[s[j]].left, ns[s[j]].right})
  {
    var x := s[j];
    var n := |s|;
    var p, q := (if j == 0 then n - 1 else j - 1), Next(j, n);
    LeftOf(ns, s, j);
    RightOf(ns, s, j);
    var ns' := Unlinked(ns, x);
    if n == 1 {
      assert s[..j] + s[j + 1..] == [];
      RingEmpty(ns');
    } else {
      assert s[p] != x && s[q] != x;
      forall i | 0 <= i < n && i != p ensures ns'[s[i]].right == ns[s[i]].right {
      }
      forall i | 0 <= i < n && i != q ensures ns'[s[i]].left == ns[s[i]].left {
      }
      RingRemove(ns, ns', s, j);
    }
  }

  /** Position of `x` in `s`. */
  function IndexOf(s: seq<NodeRef>, x: NodeRef): (j: int)
    requires x in s
    ensures 0 <= j < |s| && s[j] == x
  {
    if s[0] == x then 0 else 1 + IndexOf(s[1..], x)
  }

  /** `s` without the occurrence of `x`. */
  function Remove(s: seq<NodeRef>, x: NodeRef): (r: seq<NodeRef>)
    requires x in s
    ensures |r| == |s| - 1
  {
    s[..IndexOf(s, x)] + s[IndexOf(s, x) + 1..]
  }

  /** Lines 220-236 of `link(high, low)`: `high` becomes the first child of
      `low`, in front of the old first child. */
  function LinkedUnder(ns: Arena, high: NodeRef, low: NodeRef): Arena
    requires high in ns && low in ns && high != low
    requires ns[low].child != null ==> ns[low].child in ns && ns[ns[low].child].left in ns
  {
    var ns1 := ns[high := ns[high].(parent := low)];
    var ns2 :=
      if ns1[low].child == null then
        var a := ns1[low := ns1[low].(child := high)];
        var b := a[high := a[high].(left := high)];
        b[high := b[high].(right := high)]
      else
        var c := ns1[low].child;
        var a := ns1[high := ns1[high].(left := ns1[c].left)];
        var b := a[high := a[high].(right := c)];
        var d := b[c := b[c].(left := high)];
        var e := d[d[high].left := d[d[high].left].(right := high)];
        e[low := e[low].(child := high)];
    var ns3 := ns2[low := ns2[low].(degree := ns2[low].degree + 1)];
    ns3[high := ns3[high].(isMarked := false)]
  }

  /** What `link` changes: `high` gets parent, mark and links, `low` gets
      child and degree, the old first and last children get one link each. */
  ghost predicate LinkShaped(ns: Arena, ns': Arena, high: NodeRef, low: NodeRef, K: seq<NodeRef>)
    requires high in ns && low in ns
  {
    && ns'.Keys == ns.Keys
    && ns'[high] == ns[high].(parent := low, isMarked := false, left := ns'[high].left, right := ns'[high].right)
    && ns'[low] == ns[low].(child := high, degree := ns[low].degree + 1)
    && (forall n {:trigger Live(ns, n)} :: n in ns && Live(ns, n) && n != high && n != low ==>
          if n in K then ns'[n] == ns[n].(left := ns'[n].left, right := ns'[n].right) else ns'[n] == ns[n])
  }

  lemma LinkRing(ns: Arena, K: seq<NodeRef>, high: NodeRef, low: NodeRef)
    requires Ring(ns, K) && high in ns && low in ns && high != low && high !in K && low !in K
    requires ns[low].child == (if |K| == 0 then null else K[0])
    ensures ns[low].child != null ==> ns[low].child in ns && ns[ns[low].child].left in ns
    ensures Ring(LinkedUnder(ns, high, low), [high] + K)
    ensures LinkShaped(ns, LinkedUnder(ns, high, low), high, low, K)
  {
    if |K| > 0 {
      LeftOf(ns, K, 0);
    }
    var ns' := LinkedUnder(ns, high, low);
    if |K| == 0 {
      RingSingle(ns', high);
      assert [high] + K == [high];
    } else {
      LeftOf(ns, K, 0);
      forall i | 0 < i < |K| ensures ns'[K[i]].left == ns[K[i]].left {
      }
      forall i | 0 <= i < |K| - 1 ensures ns'[K[i]].right == ns[K[i]].right {
      }
      RingAppend(ns, ns', K, high);
      RingRotate(ns', K + [high], |K|);
      assert (K + [high])[|K|..] + (K + [high])[..|K|] == [high] + K;
    }
    forall n | n in ns && Live(ns, n) && n != high && n != low
      ensures if n in K then ns'[n] == ns[n].(left := ns'[n].left, right := ns'[n].right) else ns'[n] == ns[n]
    {
    }
  }

  /** `link(high, low)` on two roots, `high` already out of the root ring,
      keeps the forest, with `high` first among `low`'s children. */
  lemma LinkForest(ns: Arena, ns': Arena, roots: seq<NodeRef>, kids: map<NodeRef, seq<NodeRef>>, high: NodeRef, low: NodeRef)
    requires Forest(ns, roots, kids, {})
    requires high in ns && ns[high].parent == null && high !in roots && low in roots && high != low
    requires low in kids && Ring(ns', [high] + kids[low]) && LinkShaped(ns, ns', high, low, kids[low])
    ensures Forest(ns', roots, kids[low := [high] + kids[low]], {})
    ensures SameLinks(ns, ns', roots)
  {
    var K := kids[low];
    var kids' := kids[low := [high] + K];
    assert Live(ns, low) && Live(ns, high);
    assert ns[low].parent == null;
    assert forall i :: 0 <= i < |K| ==> K[i] != high && K[i] != low;
    forall i | 0 <= i < |roots| ensures roots[i] in ns' && ns'[roots[i]].parent == null && ns'[roots[i]].left == ns[roots[i]].left && ns'[roots[i]].right == ns[roots[i]].right {
      assert Live(ns, roots[i]);
      assert roots[i] !in K;
    }
    forall n: NodeRef | n in ns' && Live(ns', n) ensures Adopted(ns', kids', n) && ChildRing(ns', kids', n) {
      assert Live(ns, n);
      if n != low {
        LinkOther(ns, ns', kids, high, low, n);
      } else {
        LinkLow(ns, ns', kids, high, low);
      }
    }
  }

  lemma LinkLow(ns: Arena, ns': Arena, kids: map<NodeRef, seq<NodeRef>>, high: NodeRef, low: NodeRef)
    requires Forest(ns, [], kids, {}) && high in ns && low in ns && high != low
    requires ns[low].parent == null
    requires Ring(ns', [high] + kids[low]) && LinkShaped(ns, ns', high, low, kids[low])
    ensures Adopted(ns', kids[low := [high] + kids[low]], low) && ChildRing(ns', kids[low := [high] + kids[low]], low)
  {
    assert Live(ns, low);
    var K := kids[low];
    var K' := [high] + K;
    forall i | 0 <= i < |K'| ensures K'[i] in ns' && ns'[K'[i]].parent == low {
      if i > 0 {
        assert K'[i] == K[i - 1];
        assert Live(ns, K[i - 1]);
      }
    }
  }

  lemma LinkOther(ns: Arena, ns': Arena, kids: map<NodeRef, seq<NodeRef>>, high: NodeRef, low: NodeRef, n: NodeRef)
    requires Forest(ns, [], kids, {}) && high in ns && low in kids && n in ns && n != low
    requires ns[high].parent == null && ns[low].parent == null
    requires LinkShaped(ns, ns', high, low, kids[low])
    ensures Adopted(ns', kids[low := [high] + kids[low]], n) && ChildRing(ns', kids[low := [high] + kids[low]], n)
  {
    assert Live(ns, n);
    var C := kids[n];
    forall i | 0 <= i < |C| ensures C[i] in ns' && ns'[C[i]].parent == n && C[i] !in kids[low] && C[i] != high && C[i] != low {
      assert Live(ns, C[i]);
      if C[i] in kids[low] {
        var j :| 0 <= j < |kids[low]| && kids[low][j] == C[i];
        assert Live(ns, low);
      }
    }
    forall i | 0 <= i < |C| ensures C[i] in ns && C[i] in ns' && ns'[C[i]].left == ns[C[i]].left && ns'[C[i]].right == ns[C[i]].right {
      assert Live(ns, C[i]);
    }
    RingFrame(ns, ns', C);
    if n != high && ns[n].parent != null {
      assert Live(ns, ns[n].parent);
    }
  }

  /** After `link`, every parentless node is one of the remaining roots. */
  lemma LinkCovered(ns: Arena, ns': Arena, roots: seq<NodeRef>, high: NodeRef, low: NodeRef, K: seq<NodeRef>)
    requires high in ns && low in ns && Covered(ns, roots + [high]) && LinkShaped(ns, ns', high, low, K)
    ensures Covered(ns', roots)
  {
    forall n: NodeRef | n in ns' && Live(ns', n) && ns'[n].parent == null ensures n in roots {
      assert Live(ns, n);
      assert n in roots + [high];
    }
  }

  /** After `link`, `low` ranks above `high`; when `low`'s key is not above
      `high`'s, heap order holds. */
  lemma LinkRanked(ns: Arena, ns': Arena, rank: map<NodeRef, nat>, bound: nat, high: NodeRef, low: NodeRef, K: seq<NodeRef>)
    requires high in ns && low in ns && ns[low].parent == null && ns[high].parent == null
    requires Ranked(ns, rank, bound) && Ordered(ns, null) && LinkShaped(ns, ns', high, low, K)
    requires ns[low].key.distance <= ns[high].key.distance
    ensures Ranked(ns', rank[low := if rank[high] < rank[low] then rank[low] else rank[high] + 1], bound + rank[high] + 1)
    ensures Ordered(ns', null)
  {
    var rank' := rank[low := if rank[high] < rank[low] then rank[low] else rank[high] + 1];
    var bound' := bound + rank[high] + 1;
    assert Live(ns, low) && Live(ns, high);
    forall n: NodeRef | n in ns' && Live(ns', n)
      ensures rank'[n] < bound' && (ns'[n].parent != null ==> ns'[n].parent in rank' && rank'[n] < rank'[ns'[n].parent])
    {
      assert Live(ns, n);
      if n != high && ns[n].parent != null {
        assert Live(ns, ns[n].parent);
      }
    }
    forall n: NodeRef | n in ns' && Live(ns', n) && ns'[n].parent != null
      ensures ns'[n].parent in ns' && ns'[ns'[n].parent].key.distance <= ns'[n].key.distance
    {
      assert Live(ns, n);
      if n != high {
        assert Live(ns, ns[n].parent);
      }
    }
  }

  /** Lines 241-250 of `cut(node, parent)`: `node` leaves its parent's
      child ring, `parent.child` moves off it, and `parent.degree` drops. */
  function Detached(ns: Arena, node: NodeRef, parent: NodeRef): (r: Arena)
    requires node in ns && parent in ns && ns[node].left in ns && ns[node].right in ns
    ensures r.Keys == ns.Keys
  {
    var ns1 :=
      if node == ns[node].right then ns[parent := ns[parent].(child := null)]
      else
        var u := Unlinked(ns, node);
        if u[parent].child == node then u[parent := u[parent].(child := u[node].right)] else u;
    ns1[parent := ns1[parent].(degree := ns1[parent].degree - 1)]
  }

  /** Lines 254-255 of `cut`: the cut node loses its parent and its mark. */
  function Freed(ns: Arena, node: NodeRef): (r: Arena)
    requires node in ns
    ensures r.Keys == ns.Keys
  {
    var ns1 := ns[node := ns[node].(parent := null)];
    ns1[node := ns1[node].(isMarked := false)]
  }

  /** The whole of `cut(node, parent)`, with `m` the heap's `minNode`. */
  function CutOut(ns: Arena, node: NodeRef, parent: NodeRef, m: NodeRef): (r: Arena)
    requires node in ns && parent in ns && m in ns && ns[node].left in ns && ns[node].right in ns
    requires Detached(ns, node, parent)[m].left in ns
    ensures r.Keys == ns.Keys
  {
    Freed(Attached(Detached(ns, node, parent), m, node), node)
  }

  /** `ns'` differs from `ns` at most at `x`. */
  ghost predicate OnlyAt(ns: Arena, ns': Arena, x: NodeRef)
  {
    && ns'.Keys == ns.Keys
    && (forall n {:trigger Live(ns, n)} :: n in ns && Live(ns, n) && n != x ==> ns'[n] == ns[n])
  }

  /** What `cut` changes: the cut node's parent, mark and links, the
      parent's child, degree and links, and only links elsewhere in `S`. */
  ghost predicate CutShaped(ns: Arena, ns': Arena, node: NodeRef, parent: NodeRef, S: set<NodeRef>)
    requires node in ns && parent in ns
  {
    && ns'.Keys == ns.Keys
    && ns'[node] == ns[node].(parent := null, isMarked := false, left := ns'[node].left, right := ns'[node].right)
    && ns'[parent] == ns[parent].(degree := ns[parent].degree - 1, child := ns'[parent].child,
                                  left := if parent in S then ns'[parent].left else ns[parent].left,
                                  right := if parent in S then ns'[parent].right else ns[parent].right)
    && (forall n {:trigger Live(ns, n)} :: n in ns && Live(ns, n) && n != node && n != parent ==>
          if n in S then ns'[n] == ns[n].(left := ns'[n].left, right := ns'[n].right) else ns'[n] == ns[n])
  }

  lemma DetachedFacts(ns: Arena, node: NodeRef, p: NodeRef)
    requires node in ns && p in ns && p != node && ns[node].left in ns && ns[node].right in ns
    requires ns[node].left == node <==> ns[node].right == node
    ensures node == ns[node].right ==> OnlyAt(ns, Detached(ns, node, p), p)
    ensures node != ns[node].right ==> OnlyAt(Unlinked(ns, node), Detached(ns, node, p), p) && Unlinked(ns, node)[node] == ns[node]
    ensures Detached(ns, node, p)[p] == ns[p].(degree := ns[p].degree - 1, child := Detached(ns, node, p)[p].child, left := Detached(ns, node, p)[p].left, right := Detached(ns, node, p)[p].right)
    ensures node != ns[node].right ==> Detached(ns, node, p)[p].left == Unlinked(ns, node)[p].left && Detached(ns, node, p)[p].right == Unlinked(ns, node)[p].right
    ensures node == ns[node].right ==> Detached(ns, node, p)[p].left == ns[p].left && Detached(ns, node, p)[p].right == ns[p].right
    ensures Detached(ns, node, p)[p].child == (if node == ns[node].right then null else if ns[p].child == node then ns[node].right else ns[p].child)
  {
  }

  lemma FreedFacts(ns: Arena, node: NodeRef)
    requires node in ns
    ensures OnlyAt(ns, Freed(ns, node), node)
    ensures Freed(ns, node)[node] == ns[node].(parent := null, isMarked := false)
  {
  }

  /** The rings `cut` leaves: the parent's children without `node`, still
      starting at `parent.child`, and the roots with `node` appended. */
  lemma CutRings(ns: Arena, roots: seq<NodeRef>, kids: map<NodeRef, seq<NodeRef>>, rank: map<NodeRef, nat>, bound: nat, node: NodeRef)
    requires Forest(ns, roots, kids, {}) && Ranked(ns, rank, bound) && Ring(ns, roots) && |roots| > 0
    requires node in ns && ns[node].parent != null
    ensures ns[node].parent in ns && ns[node].parent in kids && node in kids[ns[node].parent]
    ensures ns[node].left in ns && ns[node].right in ns && roots[0] in ns
    ensures Detached(ns, node, ns[node].parent)[roots[0]].left in ns
    ensures Ring(CutOut(ns, node, ns[node].parent, roots[0]), Remove(kids[ns[node].parent], node))
    ensures Ring(CutOut(ns, node, ns[node].parent, roots[0]), roots + [node])
    ensures CutOut(ns, node, ns[node].parent, roots[0])[ns[node].parent].child == (if |Remove(kids[ns[node].parent], node)| == 0 then null else Remove(kids[ns[node].parent], node)[0])
    ensures CutShaped(ns, CutOut(ns, node, ns[node].parent, roots[0]), node, ns[node].parent, {ns[node].left, ns[node].right, roots[0], roots[|roots| - 1]})
  {
    var p := ns[node].parent;
    assert Live(ns, node);
    assert Live(ns, p);
    assert p != node;
    var K := kids[p];
    var j := IndexOf(K, node);
    UnlinkedRing(ns, K, j);
    LeftOf(ns, K, j);
    RightOf(ns, K, j);
    assert Remove(K, node) == K[..j] + K[j + 1..];
    assert ns[p].child == (if |K| == 0 then null else K[0]);
    forall i | 0 <= i < |roots| ensures roots[i] !in K {
      assert Live(ns, roots[i]);
    }
    DetachedFacts(ns, node, p);
    var ns1 := Detached(ns, node, p);
    CutRootsFrame(ns, ns1, roots, K, node, p);
    var m := roots[0];
    AttachedRing(ns1, roots, node);
    var ns2 := Attached(ns1, m, node);
    FreedFacts(ns2, node);
    var ns3 := Freed(ns2, node);
    assert ns3 == CutOut(ns, node, p, m);
    forall i | 0 <= i < |roots + [node]| ensures (roots + [node])[i] in ns2 && (roots + [node])[i] in ns3 && ns3[(roots + [node])[i]].left == ns2[(roots + [node])[i]].left && ns3[(roots + [node])[i]].right == ns2[(roots + [node])[i]].right {
      assert Live(ns2, (roots + [node])[i]);
    }
    RingFrame(ns2, ns3, roots + [node]);
    CutChildRing(ns, ns1, ns2, ns3, roots, K, node, p);
    CutShape(ns, ns1, ns2, ns3, roots, K, node, p);
  }

  lemma CutRootsFrame(ns: Arena, ns1: Arena, roots: seq<NodeRef>, K: seq<NodeRef>, node: NodeRef, p: NodeRef)
    requires Ring(ns, roots) && Ring(ns, K) && node in K && p in ns && p != node
    requires forall i :: 0 <= i < |roots| ==> roots[i] !in K
    requires ns[node].left in ns && ns[node].right in ns
    requires ns[node].left == node <==> ns[node].right == node
    requires ns1 == Detached(ns, node, p)
    ensures Ring(ns1, roots) && node !in roots
  {
    var j := IndexOf(K, node);
    UnlinkedRing(ns, K, j);
    LeftOf(ns, K, j);
    RightOf(ns, K, j);
    DetachedFacts(ns, node, p);
    var u := Unlinked(ns, node);
    forall i | 0 <= i < |roots| ensures roots[i] in ns1 && ns1[roots[i]].left == ns[roots[i]].left && ns1[roots[i]].right == ns[roots[i]].right {
      assert Live(ns, roots[i]);
      assert Live(u, roots[i]);
      assert roots[i] != ns[node].left && roots[i] != ns[node].right;
    }
    RingFrame(ns, ns1, roots);
  }

  lemma CutChildRing(ns: Arena, ns1: Arena, ns2: Arena, ns3: Arena, roots: seq<NodeRef>, K: seq<NodeRef>, node: NodeRef, p: NodeRef)
    requires Ring(ns, K) && node in K && p in ns && p != node && |roots| > 0
    requires ns[p].child == (if |K| == 0 then null else K[0])
    requires forall i :: 0 <= i < |roots| ==> roots[i] !in K
    requires ns[node].left in ns && ns[node].right in ns
    requires ns[node].right == K[Next(IndexOf(K, node), |K|)]
    requires ns[node].left == node <==> ns[node].right == node
    requires |K| > 1 ==> Ring(Unlinked(ns, node), Remove(K, node))
    requires node == ns[node].right ==> OnlyAt(ns, ns1, p)
    requires node != ns[node].right ==> OnlyAt(Unlinked(ns, node), ns1, p)
    requires node != ns[node].right ==> ns1[p].left == Unlinked(ns, node)[p].left && ns1[p].right == Unlinked(ns, node)[p].right
    requires ns1[p].child == (if node == ns[node].right then null else if ns[p].child == node then ns[node].right else ns[p].child)
    requires LinksOnly(ns1, ns2, {roots[0], roots[|roots| - 1], node})
    requires OnlyAt(ns2, ns3, node)
    ensures Ring(ns3, Remove(K, node))
    ensures ns3[p].child == (if |Remove(K, node)| == 0 then null else Remove(K, node)[0])
  {
    var j := IndexOf(K, node);
    var R := Remove(K, node);
    assert R == K[..j] + K[j + 1..];
    assert Live(ns1, p) && Live(ns2, p);
    RightOf(ns, K, j);
    if |K| == 1 {
      assert |R| == 0;
      RingEmpty(ns3);
    } else {
      var u := Unlinked(ns, node);
      assert node != ns[node].right;
      forall i | 0 <= i < |R| ensures R[i] in u && R[i] in ns3 && ns3[R[i]].left == u[R[i]].left && ns3[R[i]].right == u[R[i]].right {
        assert R[i] in K && R[i] != node;
        assert R[i] != roots[0] && R[i] != roots[|roots| - 1];
        assert Live(u, R[i]) && Live(ns1, R[i]) && Live(ns2, R[i]);
      }
      RingFrame(u, ns3, R);
      if j == 0 {
        assert R[0] == K[1];
      } else {
        assert R[0] == K[0];
      }
    }
  }

  lemma CutShape(ns: Arena, ns1: Arena, ns2: Arena, ns3: Arena, roots: seq<NodeRef>, K: seq<NodeRef>, node: NodeRef, p: NodeRef)
    requires node in ns && p in ns && p != node && |roots| > 0
    requires ns[node].left in ns && ns[node].right in ns
    requires ns[node].left == node <==> ns[node].right == node
    requires LinksOnly(ns, Unlinked(ns, node), {ns[node].left, ns[node].right})
    requires node == ns[node].right ==> OnlyAt(ns, ns1, p)
    requires node != ns[node].right ==> OnlyAt(Unlinked(ns, node), ns1, p) && Unlinked(ns, node)[node] == ns[node]
    requires ns1[p] == ns[p].(degree := ns[p].degree - 1, child := ns1[p].child, left := ns1[p].left, right := ns1[p].right)
    requires node != ns[node].right ==> ns1[p].left == Unlinked(ns, node)[p].left && ns1[p].right == Unlinked(ns, node)[p].right
    requires node == ns[node].right ==> ns1[p].left == ns[p].left && ns1[p].right == ns[p].right
    requires LinksOnly(ns1, ns2, {roots[0], roots[|roots| - 1], node})
    requires OnlyAt(ns2, ns3, node) && ns3[node] == ns2[node].(parent := null, isMarked := false)
    ensures CutShaped(ns, ns3, node, p, {ns[node].left, ns[node].right, roots[0], roots[|roots| - 1]})
  {
    var S := {ns[node].left, ns[node].right, roots[0], roots[|roots| - 1]};
    var u := Unlinked(ns, node);
    assert Live(ns, node) && Live(ns1, node) && Live(ns1, p) && Live(ns2, p) && Live(ns2, node);
    assert ns3.Keys == ns.Keys;
    if node == ns[node].right {
      assert ns1[node] == ns[node];
    } else {
      assert Live(u, node);
      assert ns1[node] == u[node];
    }
    assert ns3[node] == ns[node].(parent := null, isMarked := false, left := ns3[node].left, right := ns3[node].right);
    if node != ns[node].right {
      assert Live(ns, p);
      assert Live(u, p);
    }
    assert ns3[p] == ns[p].(degree := ns[p].degree - 1, child := ns3[p].child,
                            left := if p in S then ns3[p].left else ns[p].left,
                            right := if p in S then ns3[p].right else ns[p].right);
    forall n | n in ns && Live(ns, n) && n != node && n != p
      ensures if n in S then ns3[n] == ns[n].(left := ns3[n].left, right := ns3[n].right) else ns3[n] == ns[n]
    {
      assert Live(u, n) && Live(ns1, n) && Live(ns2, n);
    }
  }

  /** After `cut`, the forest holds with `node` a new last root and out of
      its former parent's children. */
  lemma CutForest(ns: Arena, ns': Arena, roots: seq<NodeRef>, kids: map<NodeRef, seq<NodeRef>>, rank: map<NodeRef, nat>, bound: nat, node: NodeRef, S: set<NodeRef>)
    requires Forest(ns, roots, kids, {}) && Ranked(ns, rank, bound)
    requires node in ns && ns[node].parent != null && ns[node].parent in ns && ns[node].parent in kids && node in kids[ns[node].parent]
    requires CutShaped(ns, ns', node, ns[node].parent, S)
    requires forall y :: y in S ==> y in ns && (ns[y].parent == null || ns[y].parent == ns[node].parent)
    requires Ring(ns', Remove(kids[ns[node].parent], node))
    requires ns'[ns[node].parent].child == (if |Remove(kids[ns[node].parent], node)| == 0 then null else Remove(kids[ns[node].parent], node)[0])
    ensures Forest(ns', roots + [node], kids[ns[node].parent := Remove(kids[ns[node].parent], node)], {})
  {
    var p := ns[node].parent;
    var K := kids[p];
    var R := Remove(K, node);
    var kids' := kids[p := R];
    assert Live(ns, node) && Live(ns, p);
    var j := IndexOf(K, node);
    assert R == K[..j] + K[j + 1..];
    assert p != node;
    assert forall y :: y in R ==> y in K && y != node;
    forall i | 0 <= i < |roots + [node]| ensures (roots + [node])[i] in ns' && ns'[(roots + [node])[i]].parent == null {
      if i < |roots| {
        assert Live(ns, roots[i]);
      }
    }
    forall n: NodeRef | n in ns' && Live(ns', n) ensures Adopted(ns', kids', n) && ChildRing(ns', kids', n) {
      assert Live(ns, n);
      if n == p {
        CutParent(ns, ns', kids, rank, bound, node, S);
      } else {
        CutOther(ns, ns', kids, rank, bound, node, S, n);
      }
    }
  }

  lemma CutParent(ns: Arena, ns': Arena, kids: map<NodeRef, seq<NodeRef>>, rank: map<NodeRef, nat>, bound: nat, node: NodeRef, S: set<NodeRef>)
    requires Forest(ns, [], kids, {}) && Ranked(ns, rank, bound)
    requires node in ns && ns[node].parent != null && ns[node].parent in ns && ns[node].parent in kids && node in kids[ns[node].parent]
    requires CutShaped(ns, ns', node, ns[node].parent, S)
    requires Ring(ns', Remove(kids[ns[node].parent], node))
    requires ns'[ns[node].parent].child == (if |Remove(kids[ns[node].parent], node)| == 0 then null else Remove(kids[ns[node].parent], node)[0])
    ensures Adopted(ns', kids[ns[node].parent := Remove(kids[ns[node].parent], node)], ns[node].parent)
    ensures ChildRing(ns', kids[ns[node].parent := Remove(kids[ns[node].parent], node)], ns[node].parent)
  {
    var p := ns[node].parent;
    var K := kids[p];
    var R := Remove(K, node);
    assert Live(ns, node) && Live(ns, p);
    var j := IndexOf(K, node);
    assert R == K[..j] + K[j + 1..];
    forall i | 0 <= i < |R| ensures R[i] in ns' && ns'[R[i]].parent == p {
      assert R[i] in K && R[i] != node;
      assert Live(ns, R[i]);
    }
    if ns[p].parent != null {
      assert Live(ns, ns[p].parent);
      assert rank[p] < rank[ns[p].parent];
    }
  }

  lemma CutOther(ns: Arena, ns': Arena, kids: map<NodeRef, seq<NodeRef>>, rank: map<NodeRef, nat>, bound: nat, node: NodeRef, S: set<NodeRef>, n: NodeRef)
    requires Forest(ns, [], kids, {}) && Ranked(ns, rank, bound)
    requires node in ns && ns[node].parent != null && ns[node].parent in ns && ns[node].parent in kids && node in kids[ns[node].parent]
    requires CutShaped(ns, ns', node, ns[node].parent, S)
    requires forall y :: y in S ==> y in ns && (ns[y].parent == null || ns[y].parent == ns[node].parent)
    requires n in ns && n != ns[node].parent
    ensures Adopted(ns', kids[ns[node].parent := Remove(kids[ns[node].parent], node)], n)
    ensures ChildRing(ns', kids[ns[node].parent := Remove(kids[ns[node].parent], node)], n)
  {
    var p := ns[node].parent;
    var K := kids[p];
    var j := IndexOf(K, node);
    assert Remove(K, node) == K[..j] + K[j + 1..];
    assert Live(ns, n) && Live(ns, p) && Live(ns, node);
    var C := kids[n];
    forall i | 0 <= i < |C| ensures C[i] in ns && C[i] in ns' && ns'[C[i]].parent == n && ns'[C[i]].left == ns[C[i]].left && ns'[C[i]].right == ns[C[i]].right {
      assert Live(ns, C[i]);
      assert C[i] != node;
      if C[i] == p {
        assert rank[p] < rank[n];
        if n == node {
          assert rank[node] < rank[p];
        }
        assert p !in S;
      } else {
        assert C[i] !in S;
      }
    }
    RingFrame(ns, ns', C);
    if n != node && ns[n].parent != null {
      assert Live(ns, ns[n].parent);
      if ns[n].parent == p {
        assert n in Remove(K, node);
      }
    }
  }

  /** After `cut`, `node` is covered as a root, ranks still grow towards the
      roots, and heap order holds everywhere, `node` included. */
  lemma CutRest(ns: Arena, ns': Arena, roots: seq<NodeRef>, rank: map<NodeRef, nat>, bound: nat, node: NodeRef, S: set<NodeRef>)
    requires node in ns && ns[node].parent != null && ns[node].parent in ns
    requires CutShaped(ns, ns', node, ns[node].parent, S)
    requires Covered(ns, roots) && Ranked(ns, rank, bound) && Ordered(ns, node)
    ensures Covered(ns', roots + [node]) && Ranked(ns', rank, bound) && Ordered(ns', null)
    ensures forall n :: n in ns ==> ns'[n].key == ns[n].key
  {
    var p := ns[node].parent;
    assert Live(ns, p) && Live(ns, node);
    forall n | n in ns ensures ns'[n].key == ns[n].key && (n != node ==> ns'[n].parent == ns[n].parent) {
      assert Live(ns, n);
    }
    forall n: NodeRef | n in ns' && Live(ns', n) && ns'[n].parent == null ensures n in roots + [node] {
      assert Live(ns, n);
    }
    forall n: NodeRef | n in ns' && Live(ns', n)
      ensures rank[n] < bound && (ns'[n].parent != null ==> ns'[n].parent in rank && rank[n] < rank[ns'[n].parent])
    {
      assert Live(ns, n);
    }
    forall n: NodeRef | n in ns' && Live(ns', n) && ns'[n].parent != null
      ensures ns'[n].parent in ns' && ns'[ns'[n].parent].key.distance <= ns'[n].key.distance
    {
      assert Live(ns, n);
      assert Live(ns, ns[n].parent);
    }
  }

  /** One turn of `extractMin`'s child loop (lines 119-123): the first
      remaining child `x` of the root `z` loses its parent and is attached to
      the root ring; the other remaining children keep their links. */
  lemma PromoteStep(ns: Arena, roots: seq<NodeRef>, kids: map<NodeRef, seq<NodeRef>>, rank: map<NodeRef, nat>, bound: nat, z: NodeRef)
    requires Forest(ns, roots, kids, {z}) && Covered(ns, roots) && Ranked(ns, rank, bound) && Ordered(ns, null)
    requires Ring(ns, roots) && |roots| > 0 && roots[0] == z && z in kids && |kids[z]| > 0 && Distinct(kids[z])
    ensures kids[z][0] in ns && ns[z].left in ns
    ensures Attached(ns[kids[z][0] := ns[kids[z][0]].(parent := null)], z, kids[z][0]) == PromotedFirst(ns, z, kids[z][0])
    ensures Forest(PromotedFirst(ns, z, kids[z][0]), roots + [kids[z][0]], kids[z := kids[z][1..]], {z})
    ensures Covered(PromotedFirst(ns, z, kids[z][0]), roots + [kids[z][0]])
    ensures Ranked(PromotedFirst(ns, z, kids[z][0]), rank, bound) && Ordered(PromotedFirst(ns, z, kids[z][0]), null)
    ensures Ring(PromotedFirst(ns, z, kids[z][0]), roots + [kids[z][0]])
    ensures SameLinks(ns, PromotedFirst(ns, z, kids[z][0]), kids[z][1..])
    ensures forall n :: n in ns ==> PromotedFirst(ns, z, kids[z][0])[n].key == ns[n].key
  {
    var K := kids[z];
    var x := K[0];
    assert Live(ns, z) && Live(ns, x);
    assert x !in roots;
    var ns1 := ns[x := ns[x].(parent := null)];
    var kids' := kids[z := K[1..]];
    PromoteParent(ns, roots, kids, rank, bound, z);
    forall i | 0 <= i < |roots| ensures roots[i] in ns1 && ns1[roots[i]].left == ns[roots[i]].left && ns1[roots[i]].right == ns[roots[i]].right {
    }
    RingFrame(ns, ns1, roots);
    LeftOf(ns, roots, 0);
    AttachedRing(ns1, roots, x);
    var ns2 := Attached(ns1, z, x);
    var S := {z, roots[|roots| - 1], x};
    forall y | y in S ensures y in ns1 && ns1[y].parent == null {
    }
    ForestRelink(ns1, ns2, roots + [x], roots + [x], kids', {z}, S);
    TreeRelink(ns1, ns2, S, rank, bound, null);
    CoveredRelink(ns1, ns2, S, roots + [x], roots + [x]);
    forall i | 0 <= i < |K[1..]| ensures K[1..][i] in ns && K[1..][i] in ns2 && ns2[K[1..][i]].left == ns[K[1..][i]].left && ns2[K[1..][i]].right == ns[K[1..][i]].right {
      var c := K[1..][i];
      assert c == K[i + 1] && c != x;
      assert Live(ns, c);
      assert Live(ns1, c);
      assert c !in roots;
    }
  }

  /** Lines 120 and 122 of `extractMin`, applied to the first child `x`. */
  function PromotedFirst(ns: Arena, z: NodeRef, x: NodeRef): Arena
    requires x in ns && z in ns && ns[z].left in ns
  {
    Attached(ns[x := ns[x].(parent := null)], z, x)
  }

  lemma PromoteParent(ns: Arena, roots: seq<NodeRef>, kids: map<NodeRef, seq<NodeRef>>, rank: map<NodeRef, nat>, bound: nat, z: NodeRef)
    requires Forest(ns, roots, kids, {z}) && Covered(ns, roots) && Ranked(ns, rank, bound) && Ordered(ns, null)
    requires z in kids && |kids[z]| > 0 && Distinct(kids[z])
    ensures kids[z][0] in ns
    ensures Forest(ns[kids[z][0] := ns[kids[z][0]].(parent := null)], roots + [kids[z][0]], kids[z := kids[z][1..]], {z})
    ensures Covered(ns[kids[z][0] := ns[kids[z][0]].(parent := null)], roots + [kids[z][0]])
    ensures Ranked(ns[kids[z][0] := ns[kids[z][0]].(parent := null)], rank, bound)
    ensures Ordered(ns[kids[z][0] := ns[kids[z][0]].(parent := null)], null)
  {
    var K := kids[z];
    var x := K[0];
    assert Live(ns, z) && Live(ns, x);
    var ns1 := ns[x := ns[x].(parent := null)];
    var kids' := kids[z := K[1..]];
    forall i | 0 <= i < |roots + [x]| ensures (roots + [x])[i] in ns1 && ns1[(roots + [x])[i]].parent == null {
    }
    forall n: NodeRef | n in ns1 && Live(ns1, n) ensures Adopted(ns1, kids', n) && (n != z ==> ChildRing(ns1, kids', n)) {
      PromoteOther(ns, kids, z, n);
    }
    OrphanRest(ns, roots, rank, bound, x);
  }

  lemma PromoteOther(ns: Arena, kids: map<NodeRef, seq<NodeRef>>, z: NodeRef, n: NodeRef)
    requires Forest(ns, [], kids, {z}) && z in kids && |kids[z]| > 0 && Distinct(kids[z]) && n in ns
    ensures kids[z][0] in ns
    ensures Adopted(ns[kids[z][0] := ns[kids[z][0]].(parent := null)], kids[z := kids[z][1..]], n)
    ensures n != z ==> ChildRing(ns[kids[z][0] := ns[kids[z][0]].(parent := null)], kids[z := kids[z][1..]], n)
  {
    var K := kids[z];
    var x := K[0];
    assert Live(ns, z) && Live(ns, x) && Live(ns, n);
    var ns1 := ns[x := ns[x].(parent := null)];
    var kids' := kids[z := K[1..]];
    var C := kids'[n];
    forall i | 0 <= i < |C| ensures C[i] in ns1 && ns1[C[i]].parent == n {
      if n == z {
        assert C[i] == K[i + 1];
      }
      assert Live(ns, C[i]);
    }
    if n != z {
      forall i | 0 <= i < |C| ensures C[i] in ns && C[i] in ns1 && ns1[C[i]].left == ns[C[i]].left && ns1[C[i]].right == ns[C[i]].right {
      }
      RingFrame(ns, ns1, C);
    }
    if n != x && ns[n].parent != null {
      assert Live(ns, ns[n].parent);
      if ns[n].parent == z {
        var k :| 0 <= k < |K| && K[k] == n;
        assert k != 0;
        assert n == K[1..][k - 1];
      }
    }
  }

  /** Clearing one node's parent makes it a root: it is covered by the roots
      it joins, and ranks and heap order lose only its constraint. */
  lemma OrphanRest(ns: Arena, roots: seq<NodeRef>, rank: map<NodeRef, nat>, bound: nat, x: NodeRef)
    requires Covered(ns, roots) && Ranked(ns, rank, bound) && Ordered(ns, null) && x in ns
    ensures Covered(ns[x := ns[x].(parent := null)], roots + [x])
    ensures Ranked(ns[x := ns[x].(parent := null)], rank, bound)
    ensures Ordered(ns[x := ns[x].(parent := null)], null)
  {
    var ns1 := ns[x := ns[x].(parent := null)];
    forall n: NodeRef | n in ns1 && Live(ns1, n) && ns1[n].parent == null ensures n in roots + [x] {
      assert Live(ns, n);
    }
    forall n: NodeRef | n in ns1 && Live(ns1, n)
      ensures rank[n] < bound && (ns1[n].parent != null ==> ns1[n].parent in rank && rank[n] < rank[ns1[n].parent])
    {
      assert Live(ns, n);
    }
    forall n: NodeRef | n in ns1 && Live(ns1, n) && ns1[n].parent != null
      ensures ns1[n].parent in ns1 && ns1[ns1[n].parent].key.distance <= ns1[n].key.distance
    {
      assert Live(ns, n);
      assert Live(ns, ns[n].parent);
    }
  }

  /** The extracted root `z`, childless and out of the root ring, leaves the
      arena; what remains is a well-formed forest over the other roots. */
  lemma DropRoot(ns: Arena, roots: seq<NodeRef>, kids: map<NodeRef, seq<NodeRef>>, rank: map<NodeRef, nat>, bound: nat, z: NodeRef)
    requires Forest(ns, roots, kids, {z}) && Covered(ns, roots + [z]) && Ranked(ns, rank, bound) && Ordered(ns, null)
    requires Ring(ns, roots) && z in ns && z !in roots && ns[z].parent == null && z in kids && kids[z] == []
    ensures Forest(ns - {z}, roots, kids - {z}, {}) && Covered(ns - {z}, roots)
    ensures Ranked(ns - {z}, rank - {z}, bound) && Ordered(ns - {z}, null) && Ring(ns - {z}, roots)
  {
    var ns' := ns - {z};
    var kids' := kids - {z};
    forall i | 0 <= i < |roots| ensures roots[i] in ns' && ns'[roots[i]].left == ns[roots[i]].left && ns'[roots[i]].right == ns[roots[i]].right {
    }
    RingFrame(ns, ns', roots);
    forall n: NodeRef | n in ns' && Live(ns', n) ensures Adopted(ns', kids', n) && ChildRing(ns', kids', n) {
      assert Live(ns, n);
      var C := kids[n];
      forall i | 0 <= i < |C| ensures C[i] in ns' && ns'[C[i]].parent == n && ns'[C[i]].left == ns[C[i]].left && ns'[C[i]].right == ns[C[i]].right {
        assert Live(ns, C[i]);
      }
      RingFrame(ns, ns', C);
      if ns[n].parent != null {
        assert Live(ns, ns[n].parent);
      }
    }
    forall n: NodeRef | n in ns' && Live(ns', n) && ns'[n].parent == null ensures n in roots {
      assert Live(ns, n);
      assert n in roots + [z];
    }
    forall n: NodeRef | n in ns' && Live(ns', n)
      ensures (rank - {z})[n] < bound && (ns'[n].parent != null ==> ns'[n].parent in rank - {z} && (rank - {z})[n] < (rank - {z})[ns'[n].parent])
    {
      assert Live(ns, n);
      if ns[n].parent != null {
        assert Live(ns, ns[n].parent);
      }
    }
    forall n: NodeRef | n in ns' && Live(ns', n) && ns'[n].parent != null
      ensures ns'[n].parent in ns' && ns'[ns'[n].parent].key.distance <= ns'[n].key.distance
    {
      assert Live(ns, n);
      assert Live(ns, ns[n].parent);
    }
  }

  /** Following parents from `n` ends at a listed root whose key is not
      above `n`'s: every subtree hangs below a root, in heap order. */
  lemma {:induction false} RootAbove(ns: Arena, roots: seq<NodeRef>, rank: map<NodeRef, nat>, bound: nat, n: NodeRef)
    requires Covered(ns, roots) && Ranked(ns, rank, bound) && Ordered(ns, null) && n in ns
    requires forall i :: 0 <= i < |roots| ==> roots[i] in ns
    ensures exists i :: 0 <= i < |roots| && ns[roots[i]].key.distance <= ns[n].key.distance
    decreases bound - rank[n]
  {
    assert Live(ns, n);
    if ns[n].parent == null {
      var i :| 0 <= i < |roots| && roots[i] == n;
    } else {
      RootAbove(ns, roots, rank, bound, ns[n].parent);
    }
  }

  /** A key no larger than every root's is no larger than any key. */
  lemma MinBelowAll(ns: Arena, roots: seq<NodeRef>, rank: map<NodeRef, nat>, bound: nat, m: NodeRef)
    requires Covered(ns, roots) && Ranked(ns, rank, bound) && Ordered(ns, null) && m in ns
    requires forall i :: 0 <= i < |roots| ==> roots[i] in ns && ns[m].key.distance <= ns[roots[i]].key.distance
    ensures forall n :: n in ns ==> ns[m].key.distance <= ns[n].key.distance
  {
    forall n | n in ns ensures ns[m].key.distance <= ns[n].key.distance {
      RootAbove(ns, roots, rank, bound, n);
    }
  }

  /** Lines 93-97 of `union_`: the ring read from `b` is spliced in just
      left of `a`. */
  function Spliced(ns: Arena, a: NodeRef, b: NodeRef): (r: Arena)
    requires a in ns && b in ns && ns[a].left in ns && ns[b].left in ns
    ensures r.Keys == ns.Keys
  {
    var lastNode := ns[a].left;
    var ns1 := ns[a := ns[a].(left := ns[b].left)];
    var ns2 := ns1[ns1[b].left := ns1[ns1[b].left].(right := a)];
    var ns3 := ns2[b := ns2[b].(left := lastNode)];
    ns3[lastNode := ns3[lastNode].(right := b)]
  }

  /** Splicing two disjoint rings read from `a[0]` and `b[0]` gives the ring
      `a + b`, relinking only their first and last nodes. */
  lemma SplicedRing(ns: Arena, a: seq<NodeRef>, b: seq<NodeRef>)
    requires Ring(ns, a) && Ring(ns, b) && |a| > 0 && |b| > 0
    requires forall i, j :: 0 <= i < |a| && 0 <= j < |b| ==> a[i] != b[j]
    ensures a[0] in ns && b[0] in ns && ns[a[0]].left in ns && ns[b[0]].left in ns
    ensures Ring(Spliced(ns, a[0], b[0]), a + b)
    ensures LinksOnly(ns, Spliced(ns, a[0], b[0]), {a[0], a[|a| - 1], b[0], b[|b| - 1]})
  {
    LeftOf(ns, a, 0);
    LeftOf(ns, b, 0);
    var ns' := Spliced(ns, a[0], b[0]);
    forall i | 0 < i < |a| ensures ns'[a[i]].left == ns[a[i]].left {
    }
    forall i | 0 <= i < |a| - 1 ensures ns'[a[i]].right == ns[a[i]].right {
    }
    forall i | 0 < i < |b| ensures ns'[b[i]].left == ns[b[i]].left {
    }
    forall i | 0 <= i < |b| - 1 ensures ns'[b[i]].right == ns[b[i]].right {
    }
    RingConcat(ns, ns', a, b);
  }

  /** A node of a forest keeps its shape inside a larger arena that holds
      the forest's nodes and child sequences unchanged. */
  lemma Embed(small: Arena, big: Arena, ks: map<NodeRef, seq<NodeRef>>, kb: map<NodeRef, seq<NodeRef>>, n: NodeRef)
    requires Forest(small, [], ks, {}) && n in small
    requires forall m :: m in small ==> m in big && big[m] == small[m] && m in kb && kb[m] == ks[m]
    ensures n in big && n in kb && Adopted(big, kb, n) && ChildRing(big, kb, n)
  {
    assert Live(small, n);
    var C := ks[n];
    forall i | 0 <= i < |C| ensures C[i] in small && C[i] in big && big[C[i]].left == small[C[i]].left && big[C[i]].right == small[C[i]].right {
    }
    RingFrame(small, big, C);
  }

  /** Two disjoint heaps' forests together form one forest with both root
      lists, before their rings are spliced. */
  lemma MergeForests(na: Arena, ra: seq<NodeRef>, ka: map<NodeRef, seq<NodeRef>>, rka: map<NodeRef, nat>, ba: nat,
                     nb: Arena, rb: seq<NodeRef>, kb: map<NodeRef, seq<NodeRef>>, rkb: map<NodeRef, nat>, bb: nat)
    requires Forest(na, ra, ka, {}) && Covered(na, ra) && Ranked(na, rka, ba) && Ordered(na, null) && Ring(na, ra)
    requires Forest(nb, rb, kb, {}) && Covered(nb, rb) && Ranked(nb, rkb, bb) && Ordered(nb, null) && Ring(nb, rb)
    requires na.Keys !! nb.Keys
    ensures Forest(na + nb, ra + rb, ka + kb, {}) && Covered(na + nb, ra + rb)
    ensures Ranked(na + nb, rka + rkb, ba + bb) && Ordered(na + nb, null)
    ensures Ring(na + nb, ra) && Ring(na + nb, rb)
    ensures forall i, j :: 0 <= i < |ra| && 0 <= j < |rb| ==> ra[i] != rb[j]
  {
    var ns := na + nb;
    assert forall m :: m in na ==> m in ns && ns[m] == na[m] && m in ka + kb && (ka + kb)[m] == ka[m];
    assert forall m :: m in nb ==> m in ns && ns[m] == nb[m] && m in ka + kb && (ka + kb)[m] == kb[m];
    MergeShape(na, ra, ka, nb, rb, kb);
    MergeRest(na, ra, rka, ba, nb, rb, rkb, bb);
    forall i | 0 <= i < |ra| ensures ra[i] in ns && ns[ra[i]].left == na[ra[i]].left && ns[ra[i]].right == na[ra[i]].right {
    }
    RingFrame(na, ns, ra);
    forall i | 0 <= i < |rb| ensures rb[i] in nb && rb[i] in ns && ns[rb[i]].left == nb[rb[i]].left && ns[rb[i]].right == nb[rb[i]].right {
    }
    RingFrame(nb, ns, rb);
  }

  lemma MergeShape(na: Arena, ra: seq<NodeRef>, ka: map<NodeRef, seq<NodeRef>>, nb: Arena, rb: seq<NodeRef>, kb: map<NodeRef, seq<NodeRef>>)
    requires Forest(na, ra, ka, {}) && Forest(nb, rb, kb, {}) && na.Keys !! nb.Keys
    ensures Forest(na + nb, ra + rb, ka + kb, {})
  {
    var ns := na + nb;
    var ks := ka + kb;
    assert forall m :: m in na ==> m in ns && ns[m] == na[m] && m in ks && ks[m] == ka[m];
    assert forall m :: m in nb ==> m in ns && ns[m] == nb[m] && m in ks && ks[m] == kb[m];
    assert Forest(na, [], ka, {}) && Forest(nb, [], kb, {});
    forall i | 0 <= i < |ra + rb| ensures (ra + rb)[i] in ns && ns[(ra + rb)[i]].parent == null {
      if i >= |ra| {
        assert (ra + rb)[i] == rb[i - |ra|];
      }
    }
    forall n: NodeRef | n in ns && Live(ns, n) ensures Adopted(ns, ks, n) && ChildRing(ns, ks, n) {
      if n in na {
        Embed(na, ns, ka, ks, n);
      } else {
        Embed(nb, ns, kb, ks, n);
      }
    }
  }

  lemma MergeRest(na: Arena, ra: seq<NodeRef>, rka: map<NodeRef, nat>, ba: nat, nb: Arena, rb: seq<NodeRef>, rkb: map<NodeRef, nat>, bb: nat)
    requires Covered(na, ra) && Ranked(na, rka, ba) && Ordered(na, null)
    requires Covered(nb, rb) && Ranked(nb, rkb, bb) && Ordered(nb, null)
    requires na.Keys !! nb.Keys
    ensures Covered(na + nb, ra + rb) && Ranked(na + nb, rka + rkb, ba + bb) && Ordered(na + nb, null)
  {
    var ns := na + nb;
    var rk := rka + rkb;
    assert forall m :: m in na ==> m in ns && ns[m] == na[m] && m in rk && rk[m] == rka[m];
    assert forall m :: m in nb ==> m in ns && ns[m] == nb[m] && m in rk && rk[m] == rkb[m];
    forall n: NodeRef | n in ns && Live(ns, n) && ns[n].parent == null ensures n in ra + rb {
      if n in na {
        assert Live(na, n);
      } else {
        assert Live(nb, n);
      }
    }
    forall n: NodeRef | n in ns && Live(ns, n)
      ensures rk[n] < ba + bb && (ns[n].parent != null ==> ns[n].parent in rk && rk[n] < rk[ns[n].parent])
    {
      if n in na {
        assert Live(na, n);
      } else {
        assert Live(nb, n);
      }
    }
    forall n: NodeRef | n in ns && Live(ns, n) && ns[n].parent != null
      ensures ns[n].parent in ns && ns[ns[n].parent].key.distance <= ns[n].key.distance
    {
      if n in na {
        assert Live(na, n);
        assert Live(na, na[n].parent);
      } else {
        assert Live(nb, n);
        assert Live(nb, nb[n].parent);
      }
    }
  }
}
