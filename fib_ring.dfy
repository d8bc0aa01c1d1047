/** The node arena of FibonacciHeap.h and the circular doubly-linked rings
    (`left`/`right`) that hold every sibling set. */
module FibRings {
  import opened Vertex

  /** The identity of a heap node: what `new FibonacciHeapNode` returns. */
  class NodeRef {
    constructor ()
    {
    }
  }

  /** The fields of `FibonacciHeapNode`. */
  datatype Node = Node(key: VertexInfo, degree: int, isMarked: bool, child: NodeRef?, left: NodeRef, right: NodeRef, parent: NodeRef?)

  type Arena = map<NodeRef, Node>

  /** The position after `i` in a ring of `n` positions. */
  function Next(i: int, n: int): (j: int)
    requires 0 <= i < n
    ensures 0 <= j < n
  {
    if i + 1 == n then 0 else i + 1
  }

  /** `s[i]` and its successor in `s` point at each other. Only proofs that
      name `Step` instantiate the ring quantifier, which keeps it from
      walking around the ring on its own. */
  ghost predicate Step(ns: Arena, s: seq<NodeRef>, i: int)
  {
    && 0 <= i < |s|
    && s[i] in ns && s[Next(i, |s|)] in ns
    && ns[s[i]].right == s[Next(i, |s|)]
    && ns[s[Next(i, |s|)]].left == s[i]
  }

  ghost predicate Distinct(s: seq<NodeRef>)
  {
    forall i, j :: 0 <= i < j < |s| ==> s[i] != s[j]
  }

  /** `s` lists, in `right` order, a ring of distinct arena nodes. */
  ghost predicate Ring(ns: Arena, s: seq<NodeRef>)
  {
    && (forall i :: 0 <= i < |s| ==> s[i] in ns)
    && Distinct(s)
    && (forall i {:trigger Step(ns, s, i)} :: 0 <= i < |s| ==> Step(ns, s, i))
  }

  lemma RingStep(ns: Arena, s: seq<NodeRef>, i: int)
    requires Ring(ns, s) && 0 <= i < |s|
    ensures Step(ns, s, i)
  {
  }

  /** Walking `right` from `s[i]` reaches the next ring element. */
  lemma RightOf(ns: Arena, s: seq<NodeRef>, i: int)
    requires Ring(ns, s) && 0 <= i < |s|
    ensures ns[s[i]].right == s[Next(i, |s|)]
  {
    RingStep(ns, s, i);
  }

  /** Walking `left` from `s[i]` reaches the previous ring element. */
  lemma LeftOf(ns: Arena, s: seq<NodeRef>, i: int)
    requires Ring(ns, s) && 0 <= i < |s|
    ensures ns[s[i]].left == s[if i == 0 then |s| - 1 else i - 1]
  {
    var k := if i == 0 then |s| - 1 else i - 1;
    RingStep(ns, s, k);
  }

  /** The links of the nodes of `s` are the same in both arenas. */
  ghost predicate SameLinks(ns: Arena, ns': Arena, s: seq<NodeRef>)
  {
    forall i :: 0 <= i < |s| ==> s[i] in ns && s[i] in ns' && ns'[s[i]].left == ns[s[i]].left && ns'[s[i]].right == ns[s[i]].right
  }

  lemma RingFrame(ns: Arena, ns': Arena, s: seq<NodeRef>)
    requires Ring(ns, s) && SameLinks(ns, ns', s)
    ensures Ring(ns', s)
  {
    forall i | 0 <= i < |s| ensures Step(ns', s, i) {
      RingStep(ns, s, i);
    }
  }

  /** A node whose links point at itself is a ring of one. */
  lemma RingSingle(ns: Arena, x: NodeRef)
    requires x in ns && ns[x].left == x && ns[x].right == x
    ensures Ring(ns, [x])
  {
    assert Step(ns, [x], 0);
  }

  lemma RingEmpty(ns: Arena)
    ensures Ring(ns, [])
  {
  }

  /** A ring read from another position is still a ring. */
  lemma RingRotate(ns: Arena, s: seq<NodeRef>, k: int)
    requires Ring(ns, s) && 0 <= k <= |s|
    ensures Ring(ns, s[k..] + s[..k])
  {
    var t := s[k..] + s[..k];
    forall i | 0 <= i < |s| ensures t[i] == s[Shift(i, k, |s|)] {
    }
    RingShifted(ns, s, t, k);
  }

  /** Where position `i` of a ring rotated by `k` sits in the original. */
  function Shift(i: int, k: int, n: int): (a: int)
    requires 0 <= i < n && 0 <= k <= n
    ensures 0 <= a < n
  {
    if i < n - k then i + k else i - (n - k)
  }

  lemma ShiftNext(i: int, k: int, n: int)
    requires 0 <= i < n && 0 <= k <= n
    ensures Shift(Next(i, n), k, n) == Next(Shift(i, k, n), n)
  {
  }

  lemma RingShifted(ns: Arena, s: seq<NodeRef>, t: seq<NodeRef>, k: int)
    requires Ring(ns, s) && 0 <= k <= |s| && |t| == |s|
    requires forall i :: 0 <= i < |s| ==> t[i] == s[Shift(i, k, |s|)]
    ensures Ring(ns, t)
  {
    var n := |s|;
    forall i, j | 0 <= i < j < n ensures t[i] != t[j] {
      assert t[i] == s[Shift(i, k, n)] && t[j] == s[Shift(j, k, n)];
    }
    forall i | 0 <= i < n ensures Step(ns, t, i) {
      var a := Shift(i, k, n);
      RingStep(ns, s, a);
      ShiftNext(i, k, n);
      assert t[i] == s[a];
      assert t[Next(i, n)] == s[Next(a, n)];
    }
  }

  /** The nodes of a ring other than its first and last keep their links,
      and `x` is linked in after the last: the ring gains `x` at its end. */
  lemma RingAppend(ns: Arena, ns': Arena, s: seq<NodeRef>, x: NodeRef)
    requires Ring(ns, s) && |s| > 0 && x !in s && x in ns'
    requires forall i :: 0 <= i < |s| ==> s[i] in ns'
    requires forall i :: 0 < i < |s| ==> ns'[s[i]].left == ns[s[i]].left
    requires forall i :: 0 <= i < |s| - 1 ==> ns'[s[i]].right == ns[s[i]].right
    requires ns'[s[|s| - 1]].right == x && ns'[x].left == s[|s| - 1]
    requires ns'[x].right == s[0] && ns'[s[0]].left == x
    ensures Ring(ns', s + [x])
  {
    var t := s + [x];
    var n := |t|;
    forall i | 0 <= i < n ensures t[i] in ns' {
    }
    forall i, j | 0 <= i < j < n ensures t[i] != t[j] {
    }
    forall i | 0 <= i < n ensures Step(ns', t, i) {
      if i < |s| - 1 {
        RingStep(ns, s, i);
        assert t[i] == s[i] && t[i + 1] == s[i + 1];
      }
    }
  }

  /** Unlinking `s[j]` from a ring of two or more: its neighbours point at
      each other and every other node keeps its links. */
  lemma RingRemove(ns: Arena, ns': Arena, s: seq<NodeRef>, j: int)
    requires Ring(ns, s) && 0 <= j < |s| && |s| >= 2
    requires forall i :: 0 <= i < |s| ==> s[i] in ns'
    requires var p, q := (if j == 0 then |s| - 1 else j - 1), Next(j, |s|);
      && ns'[s[p]].right == s[q] && ns'[s[q]].left == s[p]
      && (forall i :: 0 <= i < |s| && i != p ==> ns'[s[i]].right == ns[s[i]].right)
      && (forall i :: 0 <= i < |s| && i != q ==> ns'[s[i]].left == ns[s[i]].left)
    ensures Ring(ns', s[..j] + s[j + 1..])
  {
    var t := s[..j] + s[j + 1..];
    var n := |s|;
    var p, q := (if j == 0 then n - 1 else j - 1), Next(j, n);
    assert |t| == n - 1;
    forall i | 0 <= i < n - 1 ensures t[i] == s[if i < j then i else i + 1] {
    }
    forall i, k | 0 <= i < k < n - 1 ensures t[i] != t[k] {
      assert t[i] == s[if i < j then i else i + 1];
      assert t[k] == s[if k < j then k else k + 1];
    }
    forall i | 0 <= i < n - 1 ensures Step(ns', t, i) {
      var a := if i < j then i else i + 1;
      var i' := Next(i, n - 1);
      var b := if i' < j then i' else i' + 1;
      assert t[i] == s[a] && t[i'] == s[b];
      if a == p {
        assert b == q;
      } else {
        RingStep(ns, s, a);
        assert b == Next(a, n);
        assert b != q;
      }
    }
  }

  /** Two disjoint rings spliced first-to-last both ways make one ring. */
  lemma RingConcat(ns: Arena, ns': Arena, a: seq<NodeRef>, b: seq<NodeRef>)
    requires Ring(ns, a) && Ring(ns, b) && |a| > 0 && |b| > 0
    requires forall i, j :: 0 <= i < |a| && 0 <= j < |b| ==> a[i] != b[j]
    requires forall i :: 0 <= i < |a| ==> a[i] in ns'
    requires forall i :: 0 <= i < |b| ==> b[i] in ns'
    requires forall i :: 0 < i < |a| ==> ns'[a[i]].left == ns[a[i]].left
    requires forall i :: 0 <= i < |a| - 1 ==> ns'[a[i]].right == ns[a[i]].right
    requires forall i :: 0 < i < |b| ==> ns'[b[i]].left == ns[b[i]].left
    requires forall i :: 0 <= i < |b| - 1 ==> ns'[b[i]].right == ns[b[i]].right
    requires ns'[a[|a| - 1]].right == b[0] && ns'[b[0]].left == a[|a| - 1]
    requires ns'[b[|b| - 1]].right == a[0] && ns'[a[0]].left == b[|b| - 1]
    ensures Ring(ns', a + b)
  {
    var t := a + b;
    var n := |t|;
    forall i | 0 <= i < n ensures t[i] in ns' {
      if i >= |a| {
        assert t[i] == b[i - |a|];
      }
    }
    forall i, j | 0 <= i < j < n ensures t[i] != t[j] {
      if j < |a| {
      } else if i >= |a| {
        assert t[i] == b[i - |a|] && t[j] == b[j - |a|];
      } else {
        assert t[j] == b[j - |a|];
      }
    }
    forall i | 0 <= i < n ensures Step(ns', t, i) {
      if i < |a| - 1 {
        RingStep(ns, a, i);
        assert t[i] == a[i] && t[i + 1] == a[i + 1];
      } else if |a| <= i < n - 1 {
        RingStep(ns, b, i - |a|);
        assert t[i] == b[i - |a|] && t[i + 1] == b[i + 1 - |a|];
      } else if i == |a| - 1 {
        assert t[i] == a[|a| - 1] && t[i + 1] == b[0];
      } else {
        assert t[i] == b[|b| - 1] && t[0] == a[0];
      }
    }
  }
}
