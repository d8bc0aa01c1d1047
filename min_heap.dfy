/** The indexed binary min-heap of MinHeap.h: a 1-based array heap stored in a
    vector, plus a map from an element's identity (its `vertex`) to its
    position, so that `DecreaseKey` can find an element by identity. */
module MinHeaps {
  import opened Vertex

  /** 1-based positions: element `i` lives at `heap[i - 1]`. */
  function Parent(i: int): (p: int)
    requires i >= 1
    ensures i > 1 ==> 1 <= p < i
  {
    i / 2
  }

  function Left(i: int): (l: int)
    requires i >= 1
    ensures l > i
  {
    2 * i
  }

  function Right(i: int): (r: int)
    requires i >= 1
    ensures r > i + 1
  {
    2 * i + 1
  }

  /** Every position above the root is the left or the right child of its
      parent, and the children of `i` have `i` as their parent. */
  lemma ParentOfChild(i: int)
    requires i >= 1
    ensures Parent(Left(i)) == i && Parent(Right(i)) == i
    ensures i > 1 ==> Left(Parent(i)) == i || Right(Parent(i)) == i
  {
  }

  /** Position `p` lies in the subtree rooted at position `i`. */
  predicate InSubtree(p: int, i: int)
    requires p >= 1 && i >= 1
    ensures InSubtree(p, i) ==> p >= i
    decreases p
  {
    p == i || (p > i && p >= 2 && InSubtree(Parent(p), i))
  }

  lemma {:induction false} SubtreeOfChild(p: int, c: int)
    requires p >= 1 && c >= 2 && InSubtree(p, c)
    ensures InSubtree(p, Parent(c))
    decreases p
  {
    if p != c {
      SubtreeOfChild(Parent(p), c);
    }
  }

  /** Every position whose parent is at `k` or beyond is in heap order: all
      subtrees rooted at positions `>= k` are heaps. */
  ghost predicate HeapFrom(h: seq<VertexInfo>, k: int)
  {
    forall p {:trigger Parent(p)} :: 2 <= p <= |h| && Parent(p) >= k ==> h[Parent(p) - 1].distance <= h[p - 1].distance
  }

  ghost predicate IsHeap(h: seq<VertexInfo>)
  {
    HeapFrom(h, 1)
  }

  /** A heap except possibly between position `k` and its parent; the parent
      of `k` is nevertheless no larger than the children of `k`. This is the
      state `DecreaseKey` leaves after overwriting slot `k` and that the
      sift-up loop keeps while it moves `k` towards the root. */
  ghost predicate AlmostHeap(h: seq<VertexInfo>, k: int)
  {
    && 1 <= k <= |h|
    && (forall p {:trigger Parent(p)} :: 2 <= p <= |h| && p != k ==> h[Parent(p) - 1].distance <= h[p - 1].distance)
    && (k > 1 ==> forall p {:trigger Parent(p)} :: 2 <= p <= |h| && Parent(p) == k ==> h[Parent(k) - 1].distance <= h[p - 1].distance)
  }

  /** The identity map sends the identity stored at every live position to
      that position. */
  ghost predicate Indexed(h: seq<VertexInfo>, m: map<int, int>)
  {
    forall q :: 0 <= q < |h| ==> h[q].vertex in m && m[h[q].vertex] == q + 1
  }

  /** `c` is the identity-to-element view of the live part of the heap. */
  ghost predicate Tracks(h: seq<VertexInfo>, m: map<int, int>, c: map<int, VertexInfo>)
  {
    ViewHolds(h, c) && ViewLocated(h, m, c)
  }

  /** Every live element is in the view under its identity. */
  ghost predicate ViewHolds(h: seq<VertexInfo>, c: map<int, VertexInfo>)
  {
    forall q :: 0 <= q < |h| ==> h[q].vertex in c && c[h[q].vertex] == h[q]
  }

  /** `id in c`, as a term of its own: the quantifier of `ViewLocated` is
      instantiated only where a proof mentions `Listed`, which keeps it from
      feeding on every map lookup. */
  ghost predicate Listed(c: map<int, VertexInfo>, id: int)
  {
    id in c
  }

  /** Every identity of the view is mapped to a live slot holding it. */
  ghost predicate ViewLocated(h: seq<VertexInfo>, m: map<int, int>, c: map<int, VertexInfo>)
  {
    forall id {:trigger Listed(c, id)} :: Listed(c, id) ==> id in m && 1 <= m[id] <= |h| && h[m[id] - 1].vertex == id
  }

  /** The lookup `ViewLocated` promises for one identity. */
  lemma Locate(h: seq<VertexInfo>, m: map<int, int>, c: map<int, VertexInfo>, id: int)
    requires ViewLocated(h, m, c) && id in c
    ensures id in m && 1 <= m[id] <= |h| && h[m[id] - 1].vertex == id
  {
    assert Listed(c, id);
  }

  function Swapped(h: seq<VertexInfo>, i: int, j: int): (g: seq<VertexInfo>)
    requires 1 <= i <= |h| && 1 <= j <= |h|
    ensures |g| == |h| && multiset(g) == multiset(h)
    ensures g[i - 1] == h[j - 1] && g[j - 1] == h[i - 1]
    ensures forall q :: 0 <= q < |h| && q != i - 1 && q != j - 1 ==> g[q] == h[q]
  {
    h[i - 1 := h[j - 1]][j - 1 := h[i - 1]]
  }

  /** The identity map with the positions of `a` and `b` exchanged. */
  function SwappedIndex(m: map<int, int>, a: int, b: int): (m': map<int, int>)
    requires a in m && b in m
    ensures m'.Keys == m.Keys && m'[a] == m[b] && m'[b] == m[a]
    ensures forall id :: id in m && id != a && id != b ==> m'[id] == m[id]
  {
    m[a := m[b]][b := m[a]]
  }

  /** Exchanging two slots and the map entries of their identities keeps
      the identity map and the identity view consistent. */
  lemma SwapKeepsIndexed(h: seq<VertexInfo>, m: map<int, int>, i: int, j: int)
    requires Indexed(h, m) && 1 <= i <= |h| && 1 <= j <= |h|
    ensures Indexed(Swapped(h, i, j), SwappedIndex(m, h[j - 1].vertex, h[i - 1].vertex))
  {
    var g := Swapped(h, i, j);
    var a, b := g[i - 1].vertex, g[j - 1].vertex;
    var m' := SwappedIndex(m, a, b);
    forall q | 0 <= q < |g| ensures g[q].vertex in m' && m'[g[q].vertex] == q + 1 {
      if q != i - 1 && q != j - 1 {
        assert g[q] == h[q];
        assert h[q].vertex != a && h[q].vertex != b;
      }
    }
  }

  lemma SwapKeepsView(h: seq<VertexInfo>, c: map<int, VertexInfo>, i: int, j: int)
    requires 1 <= i <= |h| && 1 <= j <= |h|
    requires ViewHolds(h, c)
    ensures ViewHolds(Swapped(h, i, j), c)
  {
    var g := Swapped(h, i, j);
    forall q | 0 <= q < |g| ensures g[q].vertex in c && c[g[q].vertex] == g[q] {
      if q == i - 1 {
        assert g[q] == h[j - 1];
      } else if q == j - 1 {
        assert g[q] == h[i - 1];
      } else {
        assert g[q] == h[q];
      }
    }
  }

  lemma SwapKeepsLocated(h: seq<VertexInfo>, m: map<int, int>, c: map<int, VertexInfo>, i: int, j: int)
    requires Indexed(h, m) && 1 <= i <= |h| && 1 <= j <= |h|
    requires ViewLocated(h, m, c)
    ensures ViewLocated(Swapped(h, i, j), SwappedIndex(m, h[j - 1].vertex, h[i - 1].vertex), c)
  {
    var g := Swapped(h, i, j);
    var a, b := h[j - 1].vertex, h[i - 1].vertex;
    var m' := SwappedIndex(m, a, b);
    forall id | Listed(c, id) ensures id in m' && 1 <= m'[id] <= |g| && g[m'[id] - 1].vertex == id {
      Locate(h, m, c, id);
      var q := m[id] - 1;
      if q == i - 1 {
        assert id == b && m'[id] == j;
      } else if q == j - 1 {
        assert id == a && m'[id] == i;
      } else {
        assert m[a] == j && m[b] == i;
        assert id != a && id != b;
        assert m'[id] == m[id];
        assert g[q] == h[q];
      }
    }
  }

  lemma SwapKeepsTracks(h: seq<VertexInfo>, m: map<int, int>, c: map<int, VertexInfo>, i: int, j: int)
    requires Indexed(h, m) && Tracks(h, m, c) && 1 <= i <= |h| && 1 <= j <= |h|
    ensures Indexed(Swapped(h, i, j), SwappedIndex(m, h[j - 1].vertex, h[i - 1].vertex))
    ensures Tracks(Swapped(h, i, j), SwappedIndex(m, h[j - 1].vertex, h[i - 1].vertex), c)
  {
    SwapKeepsIndexed(h, m, i, j);
    SwapKeepsView(h, c, i, j);
    SwapKeepsLocated(h, m, c, i, j);
  }

  /** The root of a heap is no larger than any element. */
  lemma {:induction false} RootIsLeast(h: seq<VertexInfo>, p: int)
    requires IsHeap(h) && 1 <= p <= |h|
    ensures h[0].distance <= h[p - 1].distance
    decreases p
  {
    if p > 1 {
      RootIsLeast(h, Parent(p));
    }
  }

  lemma RootIsLeastOfAll(h: seq<VertexInfo>)
    requires IsHeap(h) && |h| > 0
    ensures forall e :: e in multiset(h) ==> h[0].distance <= e.distance
  {
    forall e | e in multiset(h) ensures h[0].distance <= e.distance {
      var q :| 0 <= q < |h| && h[q] == e;
      RootIsLeast(h, q + 1);
    }
  }

  /** A heap is almost a heap at every position. */
  lemma HeapIsAlmostHeap(h: seq<VertexInfo>, k: int)
    requires IsHeap(h) && 1 <= k <= |h|
    ensures AlmostHeap(h, k)
  {
    if k > 1 {
      forall p | 2 <= p <= |h| && Parent(p) == k
        ensures h[Parent(k) - 1].distance <= h[p - 1].distance
      {
        assert h[Parent(k) - 1].distance <= h[k - 1].distance;
      }
    }
  }

  /** Lowering the element at `k` keeps `AlmostHeap(h, k)`. */
  lemma LowerKeepsAlmostHeap(h: seq<VertexInfo>, k: int, e: VertexInfo)
    requires AlmostHeap(h, k) && e.distance <= h[k - 1].distance
    ensures AlmostHeap(h[k - 1 := e], k)
  {
    var g := h[k - 1 := e];
    forall p | 2 <= p <= |g| && p != k
      ensures g[Parent(p) - 1].distance <= g[p - 1].distance
    {
      if Parent(p) == k {
        assert h[Parent(p) - 1].distance <= h[p - 1].distance;
      }
    }
  }

  /** One step of the sift-up loop: swapping `k` with its larger parent moves
      the defect one level up. */
  lemma SiftUpStep(h: seq<VertexInfo>, k: int)
    requires AlmostHeap(h, k) && k > 1
    requires h[Parent(k) - 1].distance > h[k - 1].distance
    ensures AlmostHeap(Swapped(h, k, Parent(k)), Parent(k))
  {
    var q := Parent(k);
    var g := Swapped(h, k, q);
    forall p | 2 <= p <= |g| && p != q
      ensures g[Parent(p) - 1].distance <= g[p - 1].distance
    {
      if p == k {
      } else if Parent(p) == q {
        assert h[Parent(p) - 1].distance <= h[p - 1].distance;
      } else if Parent(p) == k {
        assert h[Parent(k) - 1].distance <= h[p - 1].distance;
      } else {
        assert g[p - 1] == h[p - 1] && g[Parent(p) - 1] == h[Parent(p) - 1];
      }
    }
    if q > 1 {
      forall p | 2 <= p <= |g| && Parent(p) == q
        ensures g[Parent(q) - 1].distance <= g[p - 1].distance
      {
        assert h[Parent(q) - 1].distance <= h[q - 1].distance;
        if p != k {
          assert h[q - 1].distance <= h[p - 1].distance;
        }
      }
    }
  }

  /** `g` agrees with `h` outside the subtree rooted at `i`. */
  ghost predicate SameOutside(h: seq<VertexInfo>, g: seq<VertexInfo>, i: int)
    requires i >= 1
  {
    && |g| == |h|
    && forall p {:trigger InSubtree(p, i)} :: 1 <= p <= |h| && !InSubtree(p, i) ==> g[p - 1] == h[p - 1]
  }

  /** `g` holds at `i` what `h` held at `i` or at one of its children. */
  ghost predicate RootFrom(h: seq<VertexInfo>, g: seq<VertexInfo>, i: int)
    requires i >= 1
  {
    i <= |h| && |g| == |h| ==>
      || g[i - 1] == h[i - 1]
      || (Left(i) <= |h| && g[i - 1] == h[Left(i) - 1])
      || (Right(i) <= |h| && g[i - 1] == h[Right(i) - 1])
  }

  /** `c` is a child of `i` holding the least of `i`'s and its children's
      elements, smaller than the element at `i`. */
  ghost predicate SmallestChild(h: seq<VertexInfo>, i: int, c: int)
    requires i >= 1
  {
    && (c == Left(i) || c == Right(i))
    && c <= |h|
    && h[c - 1].distance < h[i - 1].distance
    && (Left(i) <= |h| ==> h[c - 1].distance <= h[Left(i) - 1].distance)
    && (Right(i) <= |h| ==> h[c - 1].distance <= h[Right(i) - 1].distance)
  }

  /** When neither child is smaller, the subtree at `i` is already a heap. */
  lemma HeapifyStops(h: seq<VertexInfo>, i: int)
    requires 1 <= i && HeapFrom(h, i + 1)
    requires Left(i) <= |h| ==> h[i - 1].distance <= h[Left(i) - 1].distance
    requires Right(i) <= |h| ==> h[i - 1].distance <= h[Right(i) - 1].distance
    ensures HeapFrom(h, i)
  {
    forall p | 2 <= p <= |h| && Parent(p) >= i
      ensures h[Parent(p) - 1].distance <= h[p - 1].distance
    {
      if Parent(p) == i {
        ParentOfChild(i);
        assert p == Left(i) || p == Right(i);
      }
    }
  }

  /** Swapping `i` with a child leaves the subtrees below the child ordered. */
  lemma SwapDownKeepsLower(h: seq<VertexInfo>, i: int, c: int)
    requires 1 <= i && HeapFrom(h, i + 1) && (c == Left(i) || c == Right(i)) && c <= |h|
    ensures HeapFrom(Swapped(h, i, c), c + 1)
  {
    var g := Swapped(h, i, c);
    forall p | 2 <= p <= |g| && Parent(p) >= c + 1
      ensures g[Parent(p) - 1].distance <= g[p - 1].distance
    {
      assert g[p - 1] == h[p - 1] && g[Parent(p) - 1] == h[Parent(p) - 1];
    }
  }

  lemma NotInSubtreeBelow(p: int, c: int)
    requires p >= 2 && c >= 1 && p != c && !InSubtree(Parent(p), c)
    ensures !InSubtree(p, c)
  {
  }

  /** After swapping `i` with its smallest child `c` and sifting `c` down,
      the subtree at `i` is a heap and nothing outside it moved. */
  lemma HeapifyStep(h0: seq<VertexInfo>, h2: seq<VertexInfo>, i: int, c: int)
    requires 1 <= i && HeapFrom(h0, i + 1) && SmallestChild(h0, i, c)
    requires HeapFrom(h2, c)
    requires SameOutside(Swapped(h0, i, c), h2, c) && RootFrom(Swapped(h0, i, c), h2, c)
    ensures HeapFrom(h2, i) && SameOutside(h0, h2, i) && RootFrom(h0, h2, i)
  {
    var h1 := Swapped(h0, i, c);
    ParentOfChild(i);
    assert Parent(c) == i;
    assert !InSubtree(i, c);
    assert h2[i - 1] == h1[i - 1];
    forall p | 2 <= p <= |h2| && Parent(p) >= i
      ensures h2[Parent(p) - 1].distance <= h2[p - 1].distance
    {
      var q := Parent(p);
      if q < c {
        if q == i {
          if p == c {
            if Left(c) <= |h0| {
              ParentOfChild(c);
              assert Parent(Left(c)) == c;
            }
            if Right(c) <= |h0| {
              ParentOfChild(c);
              assert Parent(Right(c)) == c;
            }
          } else {
            assert p == Left(i) || p == Right(i);
            assert !InSubtree(p, c);
            assert h2[p - 1] == h1[p - 1] == h0[p - 1];
          }
        } else {
          assert !InSubtree(q, c);
          NotInSubtreeBelow(p, c);
          assert h2[p - 1] == h1[p - 1] == h0[p - 1];
          assert h2[q - 1] == h1[q - 1] == h0[q - 1];
        }
      }
    }
    forall p | 1 <= p <= |h0| && !InSubtree(p, i)
      ensures h2[p - 1] == h0[p - 1]
    {
      if InSubtree(p, c) {
        SubtreeOfChild(p, c);
      }
      assert p != i && p != c;
    }
  }

  /** The root of a heap is the least element of the identity view. */
  lemma RootIsLeastOfView(h: seq<VertexInfo>, m: map<int, int>, c: map<int, VertexInfo>)
    requires Indexed(h, m) && Tracks(h, m, c) && IsHeap(h) && |h| > 0
    ensures h[0].vertex in c && c[h[0].vertex] == h[0]
    ensures forall id :: id in c ==> h[0].distance <= c[id].distance
  {
    forall id | id in c ensures h[0].distance <= c[id].distance {
      Locate(h, m, c, id);
      var q := m[id] - 1;
      assert h[q].vertex == id;
      RootIsLeast(h, q + 1);
    }
  }

  /** An empty heap has an empty view. */
  lemma EmptyView(h: seq<VertexInfo>, m: map<int, int>, c: map<int, VertexInfo>)
    requires ViewLocated(h, m, c) && |h| == 0
    ensures c == map[]
  {
    forall id | id in c ensures false {
      Locate(h, m, c, id);
    }
    assert c.Keys == {};
  }

  /** Appending a new identity at the end, mapped to the new last position,
      keeps the bookkeeping and leaves at most the last slot out of order. */
  lemma AppendStep(h: seq<VertexInfo>, m: map<int, int>, c: map<int, VertexInfo>, key: VertexInfo)
    requires Indexed(h, m) && Tracks(h, m, c) && key.vertex !in c
    ensures Indexed(h + [key], m[key.vertex := |h| + 1])
    ensures Tracks(h + [key], m[key.vertex := |h| + 1], c[key.vertex := key])
  {
    AppendKeepsIndexed(h, m, c, key);
    AppendKeepsHolds(h, c, key);
    AppendKeepsLocated(h, m, c, key);
  }

  lemma AppendKeepsIndexed(h: seq<VertexInfo>, m: map<int, int>, c: map<int, VertexInfo>, key: VertexInfo)
    requires Indexed(h, m) && ViewHolds(h, c) && key.vertex !in c
    ensures Indexed(h + [key], m[key.vertex := |h| + 1])
  {
    var g := h + [key];
    var m' := m[key.vertex := |g|];
    forall q | 0 <= q < |g| ensures g[q].vertex in m' && m'[g[q].vertex] == q + 1 {
      if q < |h| {
        assert g[q] == h[q] && h[q].vertex in c;
      }
    }
  }

  lemma AppendKeepsHolds(h: seq<VertexInfo>, c: map<int, VertexInfo>, key: VertexInfo)
    requires ViewHolds(h, c) && key.vertex !in c
    ensures ViewHolds(h + [key], c[key.vertex := key])
  {
    var g := h + [key];
    var c' := c[key.vertex := key];
    forall q | 0 <= q < |g| ensures g[q].vertex in c' && c'[g[q].vertex] == g[q] {
      if q < |h| {
        assert g[q] == h[q] && h[q].vertex in c;
      }
    }
  }

  lemma AppendKeepsLocated(h: seq<VertexInfo>, m: map<int, int>, c: map<int, VertexInfo>, key: VertexInfo)
    requires ViewLocated(h, m, c)
    ensures ViewLocated(h + [key], m[key.vertex := |h| + 1], c[key.vertex := key])
  {
    var g := h + [key];
    var m' := m[key.vertex := |g|];
    var c' := c[key.vertex := key];
    forall id | Listed(c', id) ensures id in m' && 1 <= m'[id] <= |g| && g[m'[id] - 1].vertex == id {
      if id != key.vertex {
        Locate(h, m, c, id);
        assert g[m[id] - 1] == h[m[id] - 1];
      }
    }
  }

  /** A heap with one element appended is almost a heap at the new slot. */
  lemma AppendKeepsAlmostHeap(h: seq<VertexInfo>, key: VertexInfo)
    requires IsHeap(h)
    ensures AlmostHeap(h + [key], |h| + 1)
  {
    var g := h + [key];
    forall p | 2 <= p <= |g| && p != |g|
      ensures g[Parent(p) - 1].distance <= g[p - 1].distance
    {
      assert g[Parent(p) - 1] == h[Parent(p) - 1] && g[p - 1] == h[p - 1];
    }
  }

  /** When the sift-up loop stops, the defect is gone. */
  lemma AlmostHeapDone(h: seq<VertexInfo>, k: int)
    requires AlmostHeap(h, k)
    requires k > 1 ==> h[Parent(k) - 1].distance <= h[k - 1].distance
    ensures IsHeap(h)
  {
  }

  /** Overwriting slot `k` with an element of the same identity keeps the
      bookkeeping, with the identity view updated to the new element. */
  lemma OverwriteStep(h: seq<VertexInfo>, m: map<int, int>, c: map<int, VertexInfo>, k: int, e: VertexInfo)
    requires Indexed(h, m) && Tracks(h, m, c) && 1 <= k <= |h| && e.vertex == h[k - 1].vertex
    ensures Indexed(h[k - 1 := e], m) && Tracks(h[k - 1 := e], m, c[e.vertex := e])
  {
    var g := h[k - 1 := e];
    var c' := c[e.vertex := e];
    forall q | 0 <= q < |g| ensures g[q].vertex in m && m[g[q].vertex] == q + 1 {
      if q != k - 1 {
        assert g[q] == h[q];
      }
    }
    forall q | 0 <= q < |g| ensures g[q].vertex in c' && c'[g[q].vertex] == g[q] {
      if q != k - 1 {
        assert g[q] == h[q];
        assert m[h[q].vertex] == q + 1 && m[h[k - 1].vertex] == k;
      }
    }
    forall id | Listed(c', id) ensures id in m && 1 <= m[id] <= |g| && g[m[id] - 1].vertex == id {
      if id != e.vertex {
        Locate(h, m, c, id);
      } else {
        Locate(h, m, c, h[k - 1].vertex);
      }
      if m[id] != k {
        assert g[m[id] - 1] == h[m[id] - 1];
      }
    }
  }

  /** Dropping the last slot, which holds `last`, and its identity from the
      view keeps the bookkeeping of the rest. */
  lemma PopStep(h: seq<VertexInfo>, m: map<int, int>, c: map<int, VertexInfo>)
    requires Indexed(h, m) && Tracks(h, m, c) && |h| > 0
    ensures Indexed(h[..|h| - 1], m) && Tracks(h[..|h| - 1], m, c - {h[|h| - 1].vertex})
    ensures multiset(h[..|h| - 1]) == multiset(h) - multiset{h[|h| - 1]}
  {
    var g, last := h[..|h| - 1], h[|h| - 1];
    var c' := c - {last.vertex};
    assert h == g + [last];
    forall q | 0 <= q < |g| ensures g[q].vertex in m && m[g[q].vertex] == q + 1 {
      assert g[q] == h[q];
    }
    forall q | 0 <= q < |g| ensures g[q].vertex in c' && c'[g[q].vertex] == g[q] {
      assert g[q] == h[q];
      assert m[h[q].vertex] == q + 1 && m[last.vertex] == |h|;
    }
    forall id | Listed(c', id) ensures id in m && 1 <= m[id] <= |g| && g[m[id] - 1].vertex == id {
      Locate(h, m, c, id);
      assert m[last.vertex] == |h|;
      assert g[m[id] - 1] == h[m[id] - 1];
    }
  }

  /** Moving the last element of a heap to the root and dropping the last
      slot leaves every subtree below the root a heap. */
  lemma PopKeepsLower(h: seq<VertexInfo>)
    requires IsHeap(h) && |h| > 0
    ensures HeapFrom(Swapped(h, 1, |h|)[..|h| - 1], 2)
  {
    var g := Swapped(h, 1, |h|)[..|h| - 1];
    forall p | 2 <= p <= |g| && Parent(p) >= 2
      ensures g[Parent(p) - 1].distance <= g[p - 1].distance
    {
      assert g[p - 1] == h[p - 1] && g[Parent(p) - 1] == h[Parent(p) - 1];
    }
  }

  /** No identity occurs twice. */
  ghost predicate Distinct(s: seq<VertexInfo>)
  {
    forall a, b :: 0 <= a < b < |s| ==> s[a].vertex != s[b].vertex
  }

  /** The identity view of a sequence of elements, later ones winning. */
  ghost function ViewOf(s: seq<VertexInfo>): map<int, VertexInfo>
    decreases |s|
  {
    if |s| == 0 then map[] else ViewOf(s[..|s| - 1])[s[|s| - 1].vertex := s[|s| - 1]]
  }

  /** With distinct identities the view holds every element under its own
      identity and nothing else. */
  lemma {:induction false} ViewOfDistinct(s: seq<VertexInfo>)
    requires Distinct(s)
    ensures forall a :: 0 <= a < |s| ==> s[a].vertex in ViewOf(s) && ViewOf(s)[s[a].vertex] == s[a]
    ensures forall id :: id in ViewOf(s) ==> exists a :: 0 <= a < |s| && s[a].vertex == id
    decreases |s|
  {
    if |s| > 0 {
      var t := s[..|s| - 1];
      assert Distinct(t);
      ViewOfDistinct(t);
      forall a | 0 <= a < |s| ensures s[a].vertex in ViewOf(s) && ViewOf(s)[s[a].vertex] == s[a] {
        if a < |s| - 1 {
          assert t[a] == s[a];
        }
      }
      forall id | id in ViewOf(s) ensures exists a :: 0 <= a < |s| && s[a].vertex == id {
        if id != s[|s| - 1].vertex {
          var a :| 0 <= a < |t| && t[a].vertex == id;
          assert s[a] == t[a];
        }
      }
    }
  }

  /** An identity that occurs only once is not in the view of the prefix
      before it. */
  lemma FreshIdentity(s: seq<VertexInfo>, k: int, m: map<int, int>, c: map<int, VertexInfo>)
    requires Distinct(s) && 0 <= k < |s| && Tracks(s[..k], m, c)
    ensures s[k].vertex !in c
  {
    if s[k].vertex in c {
      Locate(s[..k], m, c, s[k].vertex);
      assert false;
    }
  }

  /** Every position of the second half is a leaf. */
  lemma LeavesAreHeaps(h: seq<VertexInfo>)
    ensures HeapFrom(h, |h| / 2 + 1)
  {
  }

  class MinHeap {
    var heap: seq<VertexInfo>
    var size: int
    var keyHeapIndexMap: map<int, int>
    /** The elements by identity. */
    ghost var contents: map<int, VertexInfo>

    /** Bookkeeping shared by every state: the size field, the identity map
        and the identity view agree with the vector. */
    ghost predicate Sound()
      reads this
    {
      size == |heap| && Indexed(heap, keyHeapIndexMap) && Tracks(heap, keyHeapIndexMap, contents)
    }

    ghost predicate Valid()
      reads this
    {
      Sound() && IsHeap(heap)
    }

    /** Bulk construction: the k-th element is mapped to position k, then the
        array is heapified bottom-up. */
    constructor (elements: seq<VertexInfo>)
      requires Distinct(elements)
      ensures Valid() && size == |elements|
      ensures multiset(heap) == multiset(elements) && contents == ViewOf(elements)
    {
      var m: map<int, int> := map[];
      ghost var c: map<int, VertexInfo> := map[];
      var k := 0;
      while k < |elements|
        invariant 0 <= k <= |elements|
        invariant Indexed(elements[..k], m) && Tracks(elements[..k], m, c)
        invariant c == ViewOf(elements[..k])
      {
        FreshIdentity(elements, k, m, c);
        AppendStep(elements[..k], m, c, elements[k]);
        assert elements[..k + 1] == elements[..k] + [elements[k]];
        assert elements[..k + 1][..k] == elements[..k];
        m := m[elements[k].vertex := k + 1];
        c := c[elements[k].vertex := elements[k]];
        k := k + 1;
      }
      assert elements[..k] == elements;
      heap, size, keyHeapIndexMap, contents := elements, |elements|, m, c;
      new;
      LeavesAreHeaps(heap);
      var i := size / 2;
      while i >= 1
        invariant 0 <= i <= size / 2
        invariant Sound() && HeapFrom(heap, i + 1)
        invariant size == |elements| && multiset(heap) == multiset(elements) && contents == c
      {
        Heapify(i);
        i := i - 1;
      }
    }

    /** Appends `key`, maps its identity to the new last position and lets
        `DecreaseKey(key, key)` sift it up. */
    method Insert(key: VertexInfo)
      requires Valid() && key.vertex !in contents
      modifies this
      ensures Valid() && size == old(size) + 1
      ensures contents == old(contents)[key.vertex := key]
    {
      AppendStep(heap, keyHeapIndexMap, contents, key);
      AppendKeepsAlmostHeap(heap, key);
      heap := heap + [key];
      size := size + 1;
      keyHeapIndexMap := keyHeapIndexMap[key.vertex := size];
      contents := contents[key.vertex := key];
      assert Sound() && AlmostHeap(heap, size) && heap[size - 1] == key;
      var r := DecreaseKey(key, key);
      assert r == Pass;
    }

    /** The front of the vector; the source reads it without a check, so an
        empty heap is excluded. */
    function Minimum(): (m: VertexInfo)
      reads this
      requires Valid() && size > 0
      ensures m.vertex in contents && contents[m.vertex] == m
      ensures forall id :: id in contents ==> m.distance <= contents[id].distance
    {
      RootIsLeastOfView(heap, keyHeapIndexMap, contents);
      heap[0]
    }

    method ExtractMin() returns (r: Result<VertexInfo>)
      requires Valid()
      modifies this
      ensures Valid()
      ensures old(size) < 1 <==> r.Failure?
      ensures r.Failure? ==> r.error == OutOfRange
      ensures r.Failure? ==> heap == old(heap) && size == old(size) && contents == old(contents) && keyHeapIndexMap == old(keyHeapIndexMap)
      ensures r.Success? ==> r.value == old(heap[0]) && size == old(size) - 1
      ensures r.Success? ==> forall e :: e in old(multiset(heap)) ==> r.value.distance <= e.distance
      ensures r.Success? ==> multiset(heap) == old(multiset(heap)) - multiset{r.value}
      ensures r.Success? ==> old(r.value.vertex in contents && contents[r.value.vertex] == r.value)
      ensures r.Success? ==> old(forall id :: id in contents ==> r.value.distance <= contents[id].distance)
      ensures r.Success? ==> contents == old(contents) - {r.value.vertex}
      ensures r.Success? ==> keyHeapIndexMap.Keys == old(keyHeapIndexMap.Keys)
    {
      if size < 1 {
        return Failure(OutOfRange);
      }
      RootIsLeastOfAll(heap);
      RootIsLeastOfView(heap, keyHeapIndexMap, contents);
      var min := heap[0];
      PopKeepsLower(heap);
      ghost var before := heap;
      ghost var shrunk := multiset(before) - multiset{min};
      Swap(1, size);
      assert heap[size - 1] == min && multiset(heap) == multiset(before);
      ghost var sw, c := heap, contents;
      PopStep(sw, keyHeapIndexMap, c);
      heap := heap[..size - 1];
      size := size - 1;
      contents := contents - {min.vertex};
      assert heap == sw[..|sw| - 1] && sw[|sw| - 1] == min && contents == c - {sw[|sw| - 1].vertex};
      assert Indexed(heap, keyHeapIndexMap) && Tracks(heap, keyHeapIndexMap, contents);
      assert heap == Swapped(before, 1, |before|)[..|before| - 1];
      assert multiset(heap) == shrunk;
      Heapify(1);
      r := Success(min);
    }

    /** Overwrites the element with the identity of `elemIdentifier` (its
        `vertex`) by `newKey` and sifts it up. Equal keys are accepted; only a
        strictly greater one is refused. The heap may also be one that
        `Insert` has just appended to. */
    method DecreaseKey(elemIdentifier: VertexInfo, newKey: VertexInfo) returns (r: Outcome)
      requires Sound() && elemIdentifier.vertex in contents && newKey.vertex == elemIdentifier.vertex
      requires IsHeap(heap) || (AlmostHeap(heap, size) && heap[size - 1].vertex == elemIdentifier.vertex)
      modifies this
      ensures r == if newKey.distance > old(contents[elemIdentifier.vertex].distance) then Fail(InvalidArgument) else Pass
      ensures r.Fail? ==> heap == old(heap) && contents == old(contents) && keyHeapIndexMap == old(keyHeapIndexMap) && size == old(size)
      ensures r.Pass? ==> Valid() && size == old(size)
      ensures r.Pass? ==> contents == old(contents)[elemIdentifier.vertex := newKey]
    {
      var id := elemIdentifier.vertex;
      Locate(heap, keyHeapIndexMap, contents, id);
      var elemIndex := keyHeapIndexMap[id];
      if newKey.distance > heap[elemIndex - 1].distance {
        return Fail(InvalidArgument);
      }
      if IsHeap(heap) {
        HeapIsAlmostHeap(heap, elemIndex);
      } else {
        assert elemIndex == size;
      }
      LowerKeepsAlmostHeap(heap, elemIndex, newKey);
      assert heap[elemIndex - 1].vertex == id;
      OverwriteStep(heap, keyHeapIndexMap, contents, elemIndex, newKey);
      heap := heap[elemIndex - 1 := newKey];
      contents := contents[id := newKey];
      while elemIndex > 1 && heap[Parent(elemIndex) - 1].distance > heap[elemIndex - 1].distance
        invariant Sound() && AlmostHeap(heap, elemIndex)
        invariant contents == old(contents)[id := newKey] && size == old(size)
        decreases elemIndex
      {
        SiftUpStep(heap, elemIndex);
        Swap(elemIndex, Parent(elemIndex));
        elemIndex := Parent(elemIndex);
      }
      AlmostHeapDone(heap, elemIndex);
      r := Pass;
    }

    predicate IsEmpty()
      reads this
      requires Valid()
      ensures IsEmpty() <==> contents == map[]
      ensures IsEmpty() <==> size == 0
    {
      if size > 0 then
        assert heap[0].vertex in contents;
        false
      else
        EmptyView(heap, keyHeapIndexMap, contents);
        true
    }

    /** Sift-down from `elemIndex`: if the subtrees below it are heaps, the
        subtree rooted at it becomes one; slots outside that subtree keep
        their elements, and the slot itself ends up holding the least of its
        own and its children's old elements. */
    method Heapify(elemIndex: int)
      requires Sound() && 1 <= elemIndex && HeapFrom(heap, elemIndex + 1)
      modifies this
      ensures Sound() && HeapFrom(heap, elemIndex) && size == old(size)
      ensures multiset(heap) == old(multiset(heap)) && contents == old(contents)
      ensures keyHeapIndexMap.Keys == old(keyHeapIndexMap.Keys)
      ensures SameOutside(old(heap), heap, elemIndex) && RootFrom(old(heap), heap, elemIndex)
      decreases |heap| - elemIndex
    {
      var l := Left(elemIndex);
      var r := Right(elemIndex);
      ghost var h := heap;
      assert size == |h|;
      var smallest;
      if l <= size && heap[l - 1].distance < heap[elemIndex - 1].distance {
        smallest := l;
      } else {
        smallest := elemIndex;
      }
      if r <= size && heap[r - 1].distance < heap[smallest - 1].distance {
        smallest := r;
      }
      if smallest != elemIndex {
        ghost var h0 := heap;
        assert smallest == l || smallest == r;
        assert SmallestChild(h0, elemIndex, smallest);
        SwapDownKeepsLower(h0, elemIndex, smallest);
        Swap(elemIndex, smallest);
        Heapify(smallest);
        HeapifyStep(h0, heap, elemIndex, smallest);
      } else {
        HeapifyStops(heap, elemIndex);
      }
    }

    /** Exchanges two slots together with their identity-map entries, as the
        paired `std::swap` calls of the source do. */
    method Swap(i: int, j: int)
      requires Sound() && 1 <= i <= size && 1 <= j <= size
      modifies this
      ensures Sound() && size == old(size) && contents == old(contents)
      ensures heap == Swapped(old(heap), i, j) && keyHeapIndexMap.Keys == old(keyHeapIndexMap.Keys)
    {
      SwapKeepsTracks(heap, keyHeapIndexMap, contents, i, j);
      heap := Swapped(heap, i, j);
      keyHeapIndexMap := SwappedIndex(keyHeapIndexMap, heap[i - 1].vertex, heap[j - 1].vertex);
    }
  }
}
