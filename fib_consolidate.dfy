/** The steps of `consolidate` and `link` in FibonacciHeap.h: roots of equal
    degree are linked until no two share a degree, and the root ring is
    rebuilt from the degree table with `minNode` at the least key. */
module FibConsolidate {
  import opened Vertex
  import opened FibRings
  import opened FibForest
  import opened FibSteps
  import opened FibCuts

  /** `removeFromRootList(high)` inside `link`: the other roots still form
      a ring, and only links change. */
  lemma LinkUnlink(ns: Arena, rs: seq<NodeRef>, kids: map<NodeRef, seq<NodeRef>>, rank: map<NodeRef, nat>, bound: nat, high: NodeRef)
    requires Trees(ns, rs, kids, rank, bound) && high in rs
    ensures high in ns && ns[high].left in ns && ns[high].right in ns && ns[high].parent == null
    ensures Forest(Unlinked(ns, high), Remove(rs, high), kids, {}) && Covered(Unlinked(ns, high), Remove(rs, high) + [high])
    ensures Ranked(Unlinked(ns, high), rank, bound) && Ordered(Unlinked(ns, high), null) && Ring(Unlinked(ns, high), Remove(rs, high))
    ensures LinksOnly(ns, Unlinked(ns, high), ns.Keys)
    ensures forall y :: y in Remove(rs, high) <==> y in rs && y != high
    ensures Distinct(Remove(rs, high))
  {
    var j := IndexOf(rs, high);
    UnlinkedRing(ns, rs, j);
    LeftOf(ns, rs, j);
    RightOf(ns, rs, j);
    RemoveMembers(rs, high);
    var ns1 := Unlinked(ns, high);
    var S := {ns[high].left, ns[high].right};
    ForestRelink(ns, ns1, rs, Remove(rs, high), kids, {}, S);
    TreeRelink(ns, ns1, S, rank, bound, null);
    CoveredRelink(ns, ns1, S, rs, Remove(rs, high) + [high]);
    forall n | n in ns && Live(ns, n) ensures ns1[n] == ns[n].(left := ns1[n].left, right := ns1[n].right) {
    }
  }

  /** Lines 220-236 of `link(high, low)` once `high` is out of the root
      ring: `high` hangs below `low`, which ranks above it. */
  lemma LinkUnder(ns: Arena, rs: seq<NodeRef>, kids: map<NodeRef, seq<NodeRef>>, rank: map<NodeRef, nat>, bound: nat, high: NodeRef, low: NodeRef)
    requires Forest(ns, rs, kids, {}) && Covered(ns, rs + [high]) && Ranked(ns, rank, bound) && Ordered(ns, null) && Ring(ns, rs)
    requires high in ns && ns[high].parent == null && high !in rs && low in rs && high != low
    requires ns[low].key.distance <= ns[high].key.distance
    ensures low in ns && low in kids && low in rank
    ensures ns[low].child != null ==> ns[low].child in ns && ns[ns[low].child].left in ns
    ensures Trees(LinkedUnder(ns, high, low), rs, kids[low := [high] + kids[low]],
                  rank[low := if rank[high] < rank[low] then rank[low] else rank[high] + 1], bound + rank[high] + 1)
    ensures LinkShaped(ns, LinkedUnder(ns, high, low), high, low, kids[low])
  {
    assert Live(ns, low) && Live(ns, high);
    var K := kids[low];
    assert forall i :: 0 <= i < |K| ==> K[i] != high && K[i] != low;
    LinkRing(ns, K, high, low);
    var ns' := LinkedUnder(ns, high, low);
    LinkForest(ns, ns', rs, kids, high, low);
    RingFrame(ns, ns', rs);
    LinkCovered(ns, ns', rs, high, low, K);
    LinkRanked(ns, ns', rank, bound, high, low, K);
  }

  /** The whole of `link(high, low)` on two roots of the ring `rs`, `low`
      holding the smaller key: `high` leaves the ring and becomes `low`'s
      first child, `low`'s degree grows by one, no key changes, and no
      other node changes degree or parent. */
  lemma LinkStep(ns: Arena, rs: seq<NodeRef>, kids: map<NodeRef, seq<NodeRef>>, rank: map<NodeRef, nat>, bound: nat, high: NodeRef, low: NodeRef)
    requires Trees(ns, rs, kids, rank, bound) && high in rs && low in rs && high != low
    requires ns[low].key.distance <= ns[high].key.distance
    ensures high in ns && low in ns && ns[high].left in ns && ns[high].right in ns && high in rank && low in rank
    ensures var ns1 := Unlinked(ns, high);
            ns1[low].child != null ==> ns1[low].child in ns1 && ns1[ns1[low].child].left in ns1
    ensures Trees(LinkedUnder(Unlinked(ns, high), high, low), Remove(rs, high), kids[low := [high] + kids[low]],
                  rank[low := if rank[high] < rank[low] then rank[low] else rank[high] + 1], bound + rank[high] + 1)
    ensures Keys(LinkedUnder(Unlinked(ns, high), high, low)) == Keys(ns)
    ensures LinkedUnder(Unlinked(ns, high), high, low)[low].degree == ns[low].degree + 1
    ensures LinkedUnder(Unlinked(ns, high), high, low)[low].parent == null
    ensures LinkedUnder(Unlinked(ns, high), high, low)[high].parent == low
    ensures forall n :: n in ns && n != high && n != low ==>
              LinkedUnder(Unlinked(ns, high), high, low)[n].degree == ns[n].degree && LinkedUnder(Unlinked(ns, high), high, low)[n].parent == ns[n].parent
    ensures forall y :: y in Remove(rs, high) <==> y in rs && y != high
  {
    assert Live(ns, low) && Live(ns, high);
    LinkUnlink(ns, rs, kids, rank, bound, high);
    var ns1 := Unlinked(ns, high);
    assert Live(ns, low);
    LinkUnder(ns1, Remove(rs, high), kids, rank, bound, high, low);
    var ns' := LinkedUnder(ns1, high, low);
    forall n | n in ns && n != high && n != low ensures ns'[n].degree == ns[n].degree && ns'[n].parent == ns[n].parent && ns'[n].key == ns[n].key {
      assert Live(ns, n) && Live(ns1, n);
    }
    forall n | n in ns' ensures Keys(ns')[n] == Keys(ns)[n] {
      assert Live(ns, n);
    }
  }

  /** The degree table `A` of `consolidate`: `A[d]` is a root of degree `d`,
      and `d` is below `top`. */
  ghost predicate Table(ns: Arena, A: map<int, NodeRef>, top: int)
  {
    forall d :: d in A ==> 0 <= d < top && A[d] in ns && ns[A[d]].degree == d && ns[A[d]].parent == null
  }

  /** `y` is one of the table's roots. */
  ghost predicate InTable(A: map<int, NodeRef>, y: NodeRef)
  {
    exists d :: d in A && A[d] == y
  }

  /** The first loop of `consolidate` once the roots `W[..k]` of the
      original ring `W` have been placed: the roots are the table's and the
      ones still to visit, which `link` has not touched. */
  ghost predicate Merging(ns0: Arena, ns: Arena, rs: seq<NodeRef>, kids: map<NodeRef, seq<NodeRef>>, rank: map<NodeRef, nat>, bound: nat,
                          W: seq<NodeRef>, k: int, A: map<int, NodeRef>, top: int)
  {
    && 0 <= k <= |W| && Distinct(W)
    && Trees(ns, rs, kids, rank, bound) && Table(ns, A, top)
    && (forall i :: 0 <= i < |rs| ==> InTable(A, rs[i]) || rs[i] in W[k..])
    && (forall d :: d in A ==> A[d] in rs && A[d] !in W[k..])
    && (forall j :: k <= j < |W| ==> W[j] in rs)
    && Keys(ns) == Keys(ns0)
  }

  /** The inner loop of `consolidate` (lines 181-189) while `x`, of degree
      `d`, waits for a free slot. */
  ghost predicate Settling(ns0: Arena, ns: Arena, rs: seq<NodeRef>, kids: map<NodeRef, seq<NodeRef>>, rank: map<NodeRef, nat>, bound: nat,
                           W: seq<NodeRef>, k: int, A: map<int, NodeRef>, top: int, x: NodeRef, d: int)
  {
    && 0 <= k < |W| && Distinct(W) && 0 <= d
    && Trees(ns, rs, kids, rank, bound) && Table(ns, A, top)
    && x in ns && ns[x].degree == d && !InTable(A, x)
    && (forall i :: 0 <= i < |rs| ==> InTable(A, rs[i]) || rs[i] == x || rs[i] in W[k + 1..])
    && (forall e :: e in A ==> A[e] in rs && A[e] !in W[k + 1..])
    && (forall j :: k + 1 <= j < |W| ==> W[j] in rs)
    && x in rs && x !in W[k + 1..]
    && Keys(ns) == Keys(ns0)
  }

  /** Before the first loop: an empty table, every root still to visit. */
  lemma MergeStart(ns: Arena, rs: seq<NodeRef>, kids: map<NodeRef, seq<NodeRef>>, rank: map<NodeRef, nat>, bound: nat)
    requires Trees(ns, rs, kids, rank, bound)
    ensures Merging(ns, ns, rs, kids, rank, bound, rs, 0, map[], 0)
  {
    assert rs[0..] == rs;
  }

  /** Lines 177-180: the next root to visit starts settling at its degree. */
  lemma SettleStart(ns0: Arena, ns: Arena, rs: seq<NodeRef>, kids: map<NodeRef, seq<NodeRef>>, rank: map<NodeRef, nat>, bound: nat,
                    W: seq<NodeRef>, k: int, A: map<int, NodeRef>, top: int)
    requires Merging(ns0, ns, rs, kids, rank, bound, W, k, A, top) && k < |W|
    ensures W[k] in ns
    ensures Settling(ns0, ns, rs, kids, rank, bound, W, k, A, top, W[k], ns[W[k]].degree)
  {
    var x := W[k];
    assert W[k..] == [x] + W[k + 1..];
    assert x in rs;
    assert Live(ns, x);
    forall j | k + 1 <= j < |W| ensures W[j] != x {
    }
    assert W[k..][0] == x;
    forall e | e in A ensures A[e] != x {
    }
  }

  /** Lines 183-188: `x` and the table's root of the same degree are
      linked, the smaller key on top, and the winner settles one degree
      higher with that slot freed. */
  lemma SettleTurn(ns0: Arena, ns: Arena, rs: seq<NodeRef>, kids: map<NodeRef, seq<NodeRef>>, rank: map<NodeRef, nat>, bound: nat,
                   W: seq<NodeRef>, k: int, A: map<int, NodeRef>, top: int, x: NodeRef, d: int, high: NodeRef, low: NodeRef)
      returns (rs': seq<NodeRef>, kids': map<NodeRef, seq<NodeRef>>, rank': map<NodeRef, nat>, bound': nat)
    requires Settling(ns0, ns, rs, kids, rank, bound, W, k, A, top, x, d) && d in A
    requires (high == A[d] && low == x) || (high == x && low == A[d])
    requires ns[low].key.distance <= ns[high].key.distance
    ensures high in ns && low in ns && high != low && ns[high].left in ns && ns[high].right in ns && high in rank && low in rank && high in rs
    ensures var ns1 := Unlinked(ns, high);
            ns1[low].child != null ==> ns1[low].child in ns1 && ns1[ns1[low].child].left in ns1
    ensures rs' == Remove(rs, high) && kids' == kids[low := [high] + kids[low]]
    ensures rank' == rank[low := if rank[high] < rank[low] then rank[low] else rank[high] + 1] && bound' == bound + rank[high] + 1
    ensures Settling(ns0, LinkedUnder(Unlinked(ns, high), high, low), rs', kids', rank', bound', W, k, A - {d}, top, low, d + 1)
    ensures |rs'| < |rs|
  {
    SettleLinked(ns0, ns, rs, kids, rank, bound, W, k, A, top, x, d, high, low);
    rs', kids' := Remove(rs, high), kids[low := [high] + kids[low]];
    rank', bound' := rank[low := if rank[high] < rank[low] then rank[low] else rank[high] + 1], bound + rank[high] + 1;
  }

  /** The state after one turn of the inner loop of `consolidate`. */
  lemma SettleLinked(ns0: Arena, ns: Arena, rs: seq<NodeRef>, kids: map<NodeRef, seq<NodeRef>>, rank: map<NodeRef, nat>, bound: nat,
                   W: seq<NodeRef>, k: int, A: map<int, NodeRef>, top: int, x: NodeRef, d: int, high: NodeRef, low: NodeRef)
    requires Settling(ns0, ns, rs, kids, rank, bound, W, k, A, top, x, d) && d in A
    requires (high == A[d] && low == x) || (high == x && low == A[d])
    requires ns[low].key.distance <= ns[high].key.distance
    ensures high in ns && low in ns && high != low && ns[high].left in ns && ns[high].right in ns && high in rank && low in rank && high in rs
    ensures var ns1 := Unlinked(ns, high);
            ns1[low].child != null ==> ns1[low].child in ns1 && ns1[ns1[low].child].left in ns1
    ensures Settling(ns0, LinkedUnder(Unlinked(ns, high), high, low), Remove(rs, high), kids[low := [high] + kids[low]],
                     rank[low := if rank[high] < rank[low] then rank[low] else rank[high] + 1], bound + rank[high] + 1,
                     W, k, A - {d}, top, low, d + 1)
    ensures |Remove(rs, high)| < |rs|
  {
    assert InTable(A, A[d]);
    assert A[d] != x;
    LinkStep(ns, rs, kids, rank, bound, high, low);
    var ns' := LinkedUnder(Unlinked(ns, high), high, low);
    TableKept(ns, ns', A, top, d, x, high, low);
    forall e | e in A && e != d ensures A[e] != A[d] {
    }
    SettledRoots(rs, Remove(rs, high), W, k, A, d, x, high, low);
  }

  /** Linking `x` with `A[d]` changes the degree or parent of neither of
      the other table roots. */
  lemma TableKept(ns: Arena, ns': Arena, A: map<int, NodeRef>, top: int, d: int, x: NodeRef, high: NodeRef, low: NodeRef)
    requires Table(ns, A, top) && d in A && !InTable(A, x)
    requires (high == A[d] && low == x) || (high == x && low == A[d])
    requires ns'.Keys == ns.Keys
    requires forall n :: n in ns && n != high && n != low ==> ns'[n].degree == ns[n].degree && ns'[n].parent == ns[n].parent
    ensures Table(ns', A - {d}, top)
  {
    var A' := A - {d};
    forall e | e in A' ensures 0 <= e < top && A'[e] in ns' && ns'[A'[e]].degree == e && ns'[A'[e]].parent == null {
      assert A'[e] != A[d] && A'[e] != x;
    }
  }

  /** The roots after linking `x` with `A[d]`: the table's other roots, the
      winner `low`, and the roots still to visit. */
  lemma SettledRoots(rs: seq<NodeRef>, rs': seq<NodeRef>, W: seq<NodeRef>, k: int, A: map<int, NodeRef>, d: int, x: NodeRef, high: NodeRef, low: NodeRef)
    requires 0 <= k < |W| && d in A && !InTable(A, x) && x in rs && x !in W[k + 1..]
    requires (high == A[d] && low == x) || (high == x && low == A[d])
    requires forall e :: e in A && e != d ==> A[e] != A[d]
    requires forall i :: 0 <= i < |rs| ==> InTable(A, rs[i]) || rs[i] == x || rs[i] in W[k + 1..]
    requires forall e :: e in A ==> A[e] in rs && A[e] !in W[k + 1..]
    requires forall j :: k + 1 <= j < |W| ==> W[j] in rs
    requires forall y :: y in rs' <==> y in rs && y != high
    ensures forall i :: 0 <= i < |rs'| ==> InTable(A - {d}, rs'[i]) || rs'[i] == low || rs'[i] in W[k + 1..]
    ensures forall e :: e in A - {d} ==> (A - {d})[e] in rs' && (A - {d})[e] !in W[k + 1..]
    ensures forall j :: k + 1 <= j < |W| ==> W[j] in rs'
    ensures low in rs' && low !in W[k + 1..] && !InTable(A - {d}, low)
  {
    var A' := A - {d};
    forall i | 0 <= i < |rs'| ensures InTable(A', rs'[i]) || rs'[i] == low || rs'[i] in W[k + 1..] {
      var y := rs'[i];
      assert y in rs;
      var i0 :| 0 <= i0 < |rs| && rs[i0] == y;
      if InTable(A, y) && y != A[d] {
        var e :| e in A && A[e] == y;
        assert e in A';
      }
    }
    forall e | e in A' ensures A'[e] in rs' {
      assert A'[e] != A[d] && A'[e] != x;
    }
    forall j | k + 1 <= j < |W| ensures W[j] in rs' {
      assert W[j] in W[k + 1..];
    }
  }

  /** Line 190: `x` takes the free slot `d`, and the next root is visited. */
  lemma SettleEnd(ns0: Arena, ns: Arena, rs: seq<NodeRef>, kids: map<NodeRef, seq<NodeRef>>, rank: map<NodeRef, nat>, bound: nat,
                  W: seq<NodeRef>, k: int, A: map<int, NodeRef>, top: int, x: NodeRef, d: int)
    requires Settling(ns0, ns, rs, kids, rank, bound, W, k, A, top, x, d) && d !in A
    ensures Merging(ns0, ns, rs, kids, rank, bound, W, k + 1, A[d := x], if top <= d then d + 1 else top)
  {
    var A' := A[d := x];
    assert A'[d] == x;
    forall i | 0 <= i < |rs| ensures InTable(A', rs[i]) || rs[i] in W[k + 1..] {
      if InTable(A, rs[i]) {
        var e :| e in A && A[e] == rs[i];
        assert A'[e] == rs[i];
      }
    }
  }

  /** `y` is the table's root of some degree below `i`. */
  ghost predicate Below(A: map<int, NodeRef>, i: int, y: NodeRef)
  {
    exists d :: d in A && d < i && A[d] == y
  }

  /** The second loop of `consolidate` (lines 194-211) after slots `0..i`:
      the table's roots of degree below `i` form the new root ring `rs2`,
      read from `m` with a least key; the other roots `rs` are all in the
      table. */
  ghost predicate Rebuilding(ns0: Arena, ns: Arena, rs: seq<NodeRef>, kids: map<NodeRef, seq<NodeRef>>, rank: map<NodeRef, nat>, bound: nat,
                             A: map<int, NodeRef>, top: int, i: int, rs2: seq<NodeRef>, m: NodeRef?)
  {
    && 0 <= i <= top && |rs| > 0
    && Forest(ns, rs2, kids, {}) && Covered(ns, rs) && Ranked(ns, rank, bound) && Ordered(ns, null)
    && Table(ns, A, top)
    && (forall j :: 0 <= j < |rs| ==> InTable(A, rs[j]))
    && Ring(ns, rs2)
    && (forall j :: 0 <= j < |rs2| ==> Below(A, i, rs2[j]))
    && (forall d :: d in A && d < i ==> A[d] in rs2)
    && (m == null <==> rs2 == []) && (m != null ==> rs2[0] == m)
    && MinIsLeast(ns, rs2)
    && Keys(ns) == Keys(ns0)
  }

  /** Line 192: after the first loop every root sits in the table, and the
      new ring starts empty. */
  lemma RebuildStart(ns0: Arena, ns: Arena, rs: seq<NodeRef>, kids: map<NodeRef, seq<NodeRef>>, rank: map<NodeRef, nat>, bound: nat,
                     W: seq<NodeRef>, A: map<int, NodeRef>, top: int)
    requires Merging(ns0, ns, rs, kids, rank, bound, W, |W|, A, top)
    ensures 0 <= top && Rebuilding(ns0, ns, rs, kids, rank, bound, A, top, 0, [], null)
  {
    assert W[|W|..] == [];
    RingEmpty(ns);
    assert Live(ns, rs[0]);
    assert InTable(A, rs[0]);
  }

  /** Line 198: an empty slot is passed over. */
  lemma RebuildSkip(ns0: Arena, ns: Arena, rs: seq<NodeRef>, kids: map<NodeRef, seq<NodeRef>>, rank: map<NodeRef, nat>, bound: nat,
                    A: map<int, NodeRef>, top: int, i: int, rs2: seq<NodeRef>, m: NodeRef?)
    requires Rebuilding(ns0, ns, rs, kids, rank, bound, A, top, i, rs2, m) && i < top && i !in A
    ensures Rebuilding(ns0, ns, rs, kids, rank, bound, A, top, i + 1, rs2, m)
  {
    forall j | 0 <= j < |rs2| ensures Below(A, i + 1, rs2[j]) {
      var d :| d in A && d < i && A[d] == rs2[j];
    }
  }

  /** Lines 200-205: the first table root found becomes `minNode`, a ring
      of its own. */
  lemma RebuildFirst(ns0: Arena, ns: Arena, rs: seq<NodeRef>, kids: map<NodeRef, seq<NodeRef>>, rank: map<NodeRef, nat>, bound: nat,
                     A: map<int, NodeRef>, top: int, i: int)
    requires Rebuilding(ns0, ns, rs, kids, rank, bound, A, top, i, [], null) && i < top && i in A
    ensures A[i] in ns
    ensures Rebuilding(ns0, ns[A[i] := ns[A[i]].(left := A[i], right := A[i])], rs, kids, rank, bound, A, top, i + 1, [A[i]], A[i])
  {
    var x := A[i];
    var ns1 := ns[x := ns[x].(left := x, right := x)];
    assert LinksOnly(ns, ns1, {x}) by {
      forall n | n in ns && Live(ns, n) ensures if n in {x} then ns1[n] == ns[n].(left := ns1[n].left, right := ns1[n].right) else ns1[n] == ns[n] {
      }
    }
    RootsRelinked(ns, ns1, [x], kids, {}, rank, bound, {x});
    CoveredRelink(ns, ns1, {x}, rs, rs);
    RingSingle(ns1, x);
    assert Below(A, i + 1, x);
    forall d | d in A && d < i + 1 ensures A[d] in [x] {
      if d < i {
        assert false;
      }
    }
    TableRelinked(ns, ns1, A, top);
  }

  /** Lines 207-209: a later table root joins the ring just left of
      `minNode`, and becomes `minNode` when its key is smaller. */
  lemma RebuildAttach(ns0: Arena, ns: Arena, rs: seq<NodeRef>, kids: map<NodeRef, seq<NodeRef>>, rank: map<NodeRef, nat>, bound: nat,
                      A: map<int, NodeRef>, top: int, i: int, rs2: seq<NodeRef>, m: NodeRef) returns (rs2': seq<NodeRef>)
    requires Rebuilding(ns0, ns, rs, kids, rank, bound, A, top, i, rs2, m) && i < top && i in A
    ensures m in ns && A[i] in ns && ns[m].left in ns
    ensures var ns1 := Attached(ns, m, A[i]);
            Rebuilding(ns0, ns1, rs, kids, rank, bound, A, top, i + 1, rs2',
                       if ns1[A[i]].key.distance < ns1[m].key.distance then A[i] else m)
  {
    var x := A[i];
    forall j | 0 <= j < |rs2| ensures rs2[j] != x {
      var d :| d in A && d < i && A[d] == rs2[j];
    }
    AttachRoot(ns, rs2, kids, rank, bound, x, rs);
    var ns1 := Attached(ns, m, x);
    assert Keys(ns1)[x] == Keys(ns)[x] && Keys(ns1)[m] == Keys(ns)[m];
    rs2' := if ns1[x].key.distance < ns1[m].key.distance then [x] + rs2 else rs2 + [x];
    BelowGrown(A, i, rs2, rs2');
    TableRelinked(ns, ns1, A, top);
    LeastKept(ns, ns1, rs2, x);
  }

  /** After the last slot: the new root ring holds every root, `minNode` is
      a least one, and no two roots share a degree. */
  lemma RebuildEnd(ns0: Arena, ns: Arena, rs: seq<NodeRef>, kids: map<NodeRef, seq<NodeRef>>, rank: map<NodeRef, nat>, bound: nat,
                   A: map<int, NodeRef>, top: int, rs2: seq<NodeRef>, m: NodeRef?)
    requires Rebuilding(ns0, ns, rs, kids, rank, bound, A, top, top, rs2, m)
    ensures m != null && Heap(ns, rs2, kids, rank, bound, m) && Keys(ns) == Keys(ns0)
    ensures forall a, b :: 0 <= a < b < |rs2| ==> ns[rs2[a]].degree != ns[rs2[b]].degree
  {
    assert InTable(A, rs[0]);
    var d0 :| d0 in A && A[d0] == rs[0];
    assert A[d0] in rs2;
    forall n | n in ns && Live(ns, n) && ns[n].parent == null ensures n in rs2 {
      var j :| 0 <= j < |rs| && rs[j] == n;
      var d :| d in A && A[d] == n;
    }
    forall a, b | 0 <= a < b < |rs2| ensures ns[rs2[a]].degree != ns[rs2[b]].degree {
      var da :| da in A && da < top && A[da] == rs2[a];
      var db :| db in A && db < top && A[db] == rs2[b];
    }
  }

  /** Relinking that keeps every parent and degree keeps the table. */
  lemma TableRelinked(ns: Arena, ns': Arena, A: map<int, NodeRef>, top: int)
    requires Table(ns, A, top) && ns'.Keys == ns.Keys
    requires forall n :: n in ns ==> ns'[n].parent == ns[n].parent && ns'[n].degree == ns[n].degree
    ensures Table(ns', A, top)
  {
    forall d | d in A ensures ns'[A[d]].degree == d && ns'[A[d]].parent == null {
      assert A[d] in ns;
    }
  }

  /** Adding `A[i]` to the ring of the table roots below `i` gives the
      ring of those below `i + 1`. */
  lemma BelowGrown(A: map<int, NodeRef>, i: int, rs2: seq<NodeRef>, rs2': seq<NodeRef>)
    requires i in A
    requires forall j :: 0 <= j < |rs2| ==> Below(A, i, rs2[j])
    requires forall d :: d in A && d < i ==> A[d] in rs2
    requires rs2' == [A[i]] + rs2 || rs2' == rs2 + [A[i]]
    ensures forall j :: 0 <= j < |rs2'| ==> Below(A, i + 1, rs2'[j])
    ensures forall d :: d in A && d < i + 1 ==> A[d] in rs2'
  {
    assert forall y :: y in rs2' <==> y in rs2 || y == A[i];
    forall j | 0 <= j < |rs2'| ensures Below(A, i + 1, rs2'[j]) {
      if rs2'[j] != A[i] {
        assert rs2'[j] in rs2;
        var j0 :| 0 <= j0 < |rs2| && rs2[j0] == rs2'[j];
        var d :| d in A && d < i && A[d] == rs2[j0];
      }
    }
  }
}
