# Shortest paths over two priority queues

This project models, in Dafny, the core of a small C++ library. The library
runs Dijkstra's single-source shortest-path algorithm on a directed,
weighted graph. It uses one of two priority queues: an indexed binary
min-heap or a Fibonacci heap. Both queues hold `VertexInfo` records
`(vertex, distance, parent, isRemoved)`. They order the records by
`distance` and identify them by `vertex`.

The model has these parts:

- **`Vertex`** (`vertex_info.dfy`): the record, the error kinds the source
  throws, and the constants `INT_MAX` and `Unreached` (`INT_MAX / 2`).
  `Unreached` is the distance sentinel of the drivers.
- **`Utils`** (`utils.dfy`): `findIndexOfMax`.
- **`MinHeaps`** (`min_heap.dfy`): `MinHeap` as a class. Its fields are the
  1-based vector `heap`, `size` and the identity-to-position map
  `keyHeapIndexMap`, plus a ghost view `contents` from identity to record.
  Every method is proved to keep the heap order and the index, and to
  change `contents` exactly as the operation promises.
- **Fibonacci heap** (`fib_ring.dfy`, `fib_forest.dfy`, `fib_steps.dfy`,
  `fib_cut.dfy`, `fib_extract.dfy`, `fib_consolidate.dfy`,
  `fibonacci_heap.dfy`):
  - An arena maps node handles to node fields. A handle is an allocated
    `NodeRef` object, so fresh handles behave like fresh C++ pointers.
  - Each operation takes the heap value and returns the heap it leaves.
    Its pointer manipulations are written step by step over the arena.
  - Ghost parameters give the shape the pointers encode: the root ring, the
    child ring of every node, and ranks that bound the tree depth.
  - Each operation is proved to keep the circular sibling rings, the
    parent/child/degree agreement and heap order. It is also proved to
    change the set of (handle, record) pairs exactly as promised.
- **`FibWalk`** (`fib_walk.dfy`): the root walk of `consolidate` exactly as
  written, and a five-node heap on which that walk calls `link(b, b)`
  (see Findings).
- **`Graphs`** (`graph.dfy`):
  - The `Graph` class: a vertex count and an array of adjacency maps, one
    map from destination to weight per source vertex.
  - The constructors, `addEdge`, `removeEdge` and `hasEdge`.
  - Edge identity is `(src, dest)`, so the weight does not take part.
- **`ShortestPaths`** (`shortest_paths.dfy`):
  - What the drivers compute: paths, path weights, and the loop invariant
    of the main loop, broken into the steps the loop takes.
  - The final theorem. On the labels the drivers return, every reached
    vertex's distance is the weight of a path from the source, and no path
    is lighter. Following `parent` from a vertex reaches the source exactly
    when the vertex is reached, along a path of exactly that weight.
- **`Dijkstra`** (`dijkstra.dfy`): `dijkstraMinHeap`, `dijkstraFibHeap`,
  and the parent chase of `printDijkstraResults`. Each driver is proved to
  return labels satisfying `ShortestPaths.Final`.

## Model

| member | source | states |
|---|---|---|
| Utils.FindIndexOfMax | utils.h:14-22 | -1 exactly for an empty container; otherwise an index in range whose element is a maximum, and no earlier element is as large (`max_element` returns the first maximum) |
| Utils.MaxElement | utils.h:20-21 | on a non-empty sequence: the position of the first element no other element exceeds |
| MinHeaps.Parent | MinHeap.h:100 | the parent of every position other than the root lies strictly above it |
| MinHeaps.Left | MinHeap.h:102 | the left child lies below its parent |
| MinHeaps.Right | MinHeap.h:104 | the right child lies below its parent and after the left child |
| MinHeaps.ParentOfChild | MinHeap.h:100-104 | both children of `i` have `i` as parent, and every non-root position is a child of its parent |
| MinHeaps.RootIsLeastOfAll | MinHeap.h:35 | in heap order the front element is no larger than any element of the vector |
| MinHeaps.RootIsLeastOfView | MinHeap.h:35 | in heap order the front element is in the identity view, and its distance is least among all identities |
| MinHeaps.SiftUpStep | MinHeap.h:58-63 | one swap of the sift-up loop moves the single out-of-order position to its parent's place |
| MinHeaps.HeapifyStep | MinHeap.h:92-97 | swapping with the smaller child and sifting down below it makes the whole subtree a heap, leaves everything outside the subtree alone, and puts the least element at its root |
| MinHeaps.ViewOfDistinct | MinHeap.h:18-22 | for distinct identities, the identity view of a vector contains exactly its elements |
| MinHeaps.MinHeap.constructor | MinHeap.h:18-26 | maps the k-th element to position k, then heapifies bottom-up: the result is a heap holding exactly the given elements |
| MinHeaps.MinHeap.Insert | MinHeap.h:28-33 | the heap stays valid, its size grows by one, and the view gains `key` under its identity |
| MinHeaps.MinHeap.Minimum | MinHeap.h:35 | on a non-empty heap: an element of the view whose distance is least |
| MinHeaps.MinHeap.ExtractMin | MinHeap.h:37-49 | fails with out-of-range, changing nothing, exactly when the heap is empty; otherwise returns the old front, which is least, and removes exactly it from the vector and from the view; the index keeps the removed identity's entry |
| MinHeaps.MinHeap.DecreaseKey | MinHeap.h:51-64 | refuses (invalid argument, nothing changed) exactly a strictly greater key; otherwise replaces the record of that identity and leaves a valid heap of unchanged size |
| MinHeaps.MinHeap.IsEmpty | MinHeap.h:75 | true exactly when the size is 0, and exactly when the view is empty |
| MinHeaps.MinHeap.Heapify | MinHeap.h:78-98 | if both subtrees below a position are heaps, the subtree at it becomes one. The elements are permuted, the slots outside the subtree keep theirs, and the slot itself gets the least of its own and its children's elements |
| MinHeaps.MinHeap.Swap | MinHeap.h:43-44 | exchanges two slots together with their index entries; the index and the view stay consistent |
| FibonacciHeaps.EmptyHeap | FibonacciHeap.h:51 | a valid heap with no minimum node, no nodes and no contents |
| FibonacciHeaps.AttachToRootList | FibonacciHeap.h:273-279 | splices `x` into the ring immediately to the left of `minNode` |
| FibonacciHeaps.RemoveFromRootList | FibonacciHeap.h:281-292 | unlinks the node from its ring; `minNode` moves to its right neighbour, or becomes null when it was alone |
| FibonacciHeaps.Insert | FibonacciHeap.h:67-80 | adds a fresh node with degree 0, unmarked, with no child or parent; contents gain it and `numNodes` grows by one. It becomes the minimum exactly when the heap was empty or its key is strictly smaller |
| FibonacciHeaps.Minimum | FibonacciHeap.h:82 | null exactly on an empty heap; otherwise a node whose key is least among all nodes |
| FibonacciHeaps.Union | FibonacciHeap.h:84-105 | nothing changes when the other heap is empty. Otherwise contents and counts add up, the minimum is the smaller of the two (ties keep this heap's), and the other heap is left empty |
| FibonacciHeaps.IntoEmpty | FibonacciHeap.h:89-90 | adopting the other heap's root ring into an empty heap gives a valid heap with both contents |
| FibonacciHeaps.SpliceRings | FibonacciHeap.h:93-97 | the four pointer writes join the two root rings into one |
| FibonacciHeaps.SpliceHeaps | FibonacciHeap.h:91-100 | joining two non-empty heaps gives a valid heap with both contents, and the minimum is chosen by strict comparison |
| FibonacciHeaps.IsEmpty | FibonacciHeap.h:161 | true exactly when the heap holds no node |
| FibonacciHeaps.DecreaseKey | FibonacciHeap.h:139-153 | refuses (invalid argument, heap unchanged) exactly a strictly greater key. Otherwise the node's record is replaced, the node is cut from its parent exactly when its key falls below the parent's, and it becomes the minimum exactly when its key is strictly smaller |
| FibonacciHeaps.Cut | FibonacciHeap.h:239-256 | the node leaves its parent's child ring (the parent loses one degree and its child pointer moves on when needed), joins the root ring, and loses its parent and its mark |
| FibonacciHeaps.CascadingCut | FibonacciHeap.h:258-271 | a root is left alone; an unmarked non-root is only marked, keeping its parent. A marked non-root is cut and the walk goes on at its parent: along the returned walk every node but the last was marked, is the child of the next, and ends as an unmarked root; the last is a root left alone or an unmarked child that is now marked. Every node off the walk keeps its parent and mark, and keys and heap order are kept |
| FibonacciHeaps.CutAndCascade | FibonacciHeap.h:266-270 | a marked child is cut (it ends with no parent and no mark) and its parent's cascade follows: the walk is the node followed by the parent's walk, and nodes off it keep parent and mark |
| FibonacciHeaps.CutIfBelowParent | FibonacciHeap.h:145-150 | the node is cut exactly when it has a parent whose key is now larger; then it is an unmarked root and the former parent goes through the cascade along the returned walk, every other node keeping parent and mark. Otherwise nothing changes |
| FibonacciHeaps.PromoteChildren | FibonacciHeap.h:113-126 | every child of the minimum moves to the root ring with no parent, and the minimum is left with no child. No mark changes |
| FibonacciHeaps.ExtractMin | FibonacciHeap.h:107-137 | fails with out-of-range, heap unchanged, exactly on an empty heap. Otherwise returns the minimum node's record, whose key is least of all; the contents lose exactly that node and `numNodes` drops by one |
| FibonacciHeaps.Consolidate | FibonacciHeap.h:173-214 | leaves a valid heap over the same nodes and keys in which no two roots have the same degree |
| FibonacciHeaps.RootList | FibonacciHeap.h:177-192 | collects the root ring from `minNode` rightwards: exactly the roots, in ring order |
| FibonacciHeaps.MergeRoots | FibonacciHeap.h:177-192 | after every root has been settled, the degree table holds one tree per degree, and together they hold all nodes |
| FibonacciHeaps.SettleRoot | FibonacciHeap.h:180-190 | links the root with the table's tree of equal degree, degree after degree, until it finds a free degree |
| FibonacciHeaps.RebuildRing | FibonacciHeap.h:194-213 | rebuilds the root ring from the table in degree order and points `minNode` at a least root |
| FibonacciHeaps.Link | FibonacciHeap.h:216-237 | removes `high` from the root ring and makes it a child of `low`: `low` gains one degree, and `high` is unmarked and has `low` as parent |
| FibCuts.CascadeExtended | FibonacciHeap.h:266-270 | cutting a marked child and then running its parent's cascade is the cascade along the child followed by the parent's walk, and nodes off that walk keep parent and mark |
| FibCuts.CascadeCut | FibonacciHeap.h:147-149 | a cut followed by the parent's cascade leaves the cut node an unmarked root, and leaves nodes off the walk alone |
| FibCuts.CascadeMarks | FibonacciHeap.h:258-271 | after a cascade, a root keeps no parent and its mark, and a node that became marked has a parent |
| FibForest.MinBelowAll | FibonacciHeap.h:82 | in a heap-ordered forest, a node no larger than every root is no larger than every node |
| FibWalk.WalkAsWritten | FibonacciHeap.h:177-192 | the walk of the first `consolidate` loop following `x->right` on the ring as `link` rewires it; when it calls `link(n, n)` on some node `n`, that node is in the heap |
| FibWalk.WalkSelfLinks | FibonacciHeap.h:177-192 | on a valid heap whose root keys are 1, 5, 3 with degrees 0, 2, 0, the walk as written calls `link(b, b)` |
| FibWalk.SampleIsHeap | FibonacciHeap.h:7-20 | the five-node sample is a valid Fibonacci heap with minimum `a` |
| Graphs.NegativeSourcePasses | Graph.cpp:78 | the edge (-1, 0) in a one-vertex graph passes the range test as written |
| Graphs.RejectedAsWrittenAgrees | Graph.cpp:78 | for non-negative endpoints, the test as written rejects exactly the out-of-range edges |
| Graphs.Added | Graph.cpp:81 | inserting into an adjacency set adds the destination; an edge already present keeps its old weight |
| Graphs.Removed | Graph.cpp:89 | erasing removes the destination and keeps every other edge with its weight |
| Graphs.AddedTwice | Graph.cpp:81 | a second insertion of the same (src, dest) changes nothing, whatever its weight |
| Graphs.RemovedAfterAdded | Graph.cpp:81-89 | erasing after inserting equals erasing; an edge that was new disappears without trace |
| Graphs.AddTo | Graph.cpp:81 | only the source vertex's adjacency set changes |
| Graphs.AddToClosed | Graph.cpp:76-82 | an in-range insertion keeps every destination a vertex |
| Graphs.Built | Graph.cpp:65-69 | the adjacency that the edge-list constructor builds has one set per vertex |
| Graphs.FirstEdge | Graph.cpp:67-68 | the index of the first listed edge with the given endpoints, or the list length when there is none |
| Graphs.BuiltEdges | Graph.cpp:65-69 | a (src, dest) pair is in the built graph exactly when the list has such an edge, and its weight is the first such edge's |
| Graphs.Graph.constructor | Graph.cpp:12-18 | for a non-negative count: a graph with that many vertices and no edges |
| Graphs.NewGraph | Graph.cpp:12-18 | fails with invalid argument exactly when the count is negative; otherwise a fresh, edgeless graph |
| Graphs.FromEdges | Graph.cpp:65-69 | fails with invalid argument exactly when the count is negative or some edge is out of range; otherwise the graph `Built` from the list |
| Graphs.Graph.AddEdge | Graph.cpp:76-82 | fails with invalid argument, changing nothing, exactly when an endpoint is out of range. Otherwise reports whether the edge is new, and only the source's set changes, by insertion |
| Graphs.Graph.RemoveEdge | Graph.cpp:84-90 | fails with invalid argument, changing nothing, exactly when an endpoint is out of range. Otherwise reports whether the edge was present and erases it from the source's set only |
| Graphs.Graph.HasEdge | Graph.cpp:92-95 | true exactly when the source's set holds an edge equal to the query under `DirectedEqual` |
| ShortestPaths.Extend | Graph.cpp:120 | extending a path by an edge adds that edge's weight |
| ShortestPaths.Start | Graph.cpp:101-109 | the initial labels, all unsettled, satisfy the main loop's invariant |
| ShortestPaths.Settle | Graph.cpp:113-114 | settling a least unsettled vertex starts its relaxation with the invariant intact, and removes it from the unsettled labels |
| ShortestPaths.Skip | Graph.cpp:117-121 | skipping a settled neighbour, or one the edge does not improve, keeps the relaxation invariant |
| ShortestPaths.Improve | Graph.cpp:120-125 | an improving edge's new distance fits in an `int`; updating the distance and parent keeps the relaxation invariant and updates the unsettled labels the same way |
| ShortestPaths.Settled | Graph.cpp:115-127 | once every edge of the settled vertex has been seen, the main loop's invariant holds again |
| ShortestPaths.Finish | Graph.cpp:111 | with nothing left unsettled, the invariant gives the final labelling |
| ShortestPaths.FinalChased | Graph.cpp:176-182 | on final labels every parent is a labelled vertex settled earlier, so the chase ends |
| ShortestPaths.Ancestry | Graph.cpp:176-182 | the parent chain of a vertex ends at the vertex itself and starts at a labelled vertex with no parent |
| ShortestPaths.LowerBound | Graph.cpp:111-128 | on final labels no path from the source is lighter than the distance of the vertex it ends at |
| ShortestPaths.TreePath | Graph.cpp:176-188 | on final labels the parent chain starts at the source exactly when the vertex is reached, and is then a path whose weight is the distance |
| ShortestPaths.Shortest | Graph.cpp:97-132 | on final labels a vertex's distance is at most every path's weight, and for a reached vertex some path from the source has exactly that weight |
| ShortestPaths.SameDistances | Graph.cpp:97-170 | any two final labellings, whichever queue produced them, have the same vertices and the same distances |
| Dijkstra.InitLabels | Graph.cpp:101-105 | fails with out-of-range exactly when the source is not a vertex; otherwise every vertex is unreached with no parent, except the source at 0 |
| Dijkstra.Pick | Graph.cpp:115 | picks some member of a non-empty set; the order of the unordered containers is left open |
| Dijkstra.LeastUnsettled | Graph.cpp:113 | a key least in the queue is least among all unsettled labels |
| Dijkstra.InsertAll | Graph.cpp:107-109 | the binary heap ends holding exactly the labels |
| Dijkstra.SettleMin | Graph.cpp:113-114 | extracts a least unsettled vertex, marks it settled and starts its relaxation with the invariant intact |
| Dijkstra.RelaxEdge | Graph.cpp:117-126 | the label changes exactly when the neighbour is unsettled and strictly improved, to the new distance with `u` as parent; the heap follows the labels |
| Dijkstra.Relax | Graph.cpp:115-127 | relaxing all outgoing edges restores the main loop's invariant; the heap still mirrors the unsettled labels |
| Dijkstra.DijkstraMinHeap | Graph.cpp:97-132 | fails with out-of-range exactly when the source is not a vertex; otherwise returns final labels (distances shortest, parents a shortest-path tree) |
| Dijkstra.TrackedEmpty | Graph.cpp:149 | the Fibonacci heap is empty exactly when no label is unsettled |
| Dijkstra.IsEmptyFib | Graph.cpp:149 | the loop test is true exactly when no label is unsettled |
| Dijkstra.InsertAllFib | Graph.cpp:144-147 | one node per label, and `nodeReferences` sends each vertex to its node |
| Dijkstra.SettleMinFib | Graph.cpp:151-152 | extracts a least unsettled vertex through the Fibonacci heap, marks it settled, and the heap shrinks by one |
| Dijkstra.RekeyFib | Graph.cpp:163 | lowering a vertex's label through its node reference keeps the heap mirroring the labels |
| Dijkstra.RelaxEdgeFib | Graph.cpp:155-164 | as `RelaxEdge`, with the decrease going through `nodeReferences` |
| Dijkstra.RelaxFib | Graph.cpp:153-165 | as `Relax`, with the Fibonacci heap |
| Dijkstra.DijkstraFibHeap | Graph.cpp:134-170 | fails with out-of-range exactly when the source is not a vertex; otherwise returns final labels |
| Dijkstra.ReportPath | Graph.cpp:176-195 | reports a path exactly when the parent chain ends at the source, and the path is that chain in source-to-vertex order; with `TreePath` this is exactly the reached vertices, along a shortest path |

## Left out

- The Fibonacci heap is a value, and each operation returns a new heap and arena. The model does not capture update in place, or aliasing between the heap object and node pointers held by callers, beyond handles staying valid.
- FibonacciHeaps.Consolidate: the table `A` is a map keyed by degree. The source sizes a vector by `log(numNodes) / log(golden ratio) + 1` in floating point, so the model does not state that the degrees fit that bound.
- FibonacciHeaps.Consolidate: it walks a snapshot of the root ring taken before any link, not the walk as written (see Findings).
- Destructors, `delete` of nodes and of the adjacency array: memory management is not modelled.
- `delete_`: not modelled, because it relies on `std::numeric_limits<T>::min()`, which for `VertexInfo` is not a meaningful least key.
- Printing (`operator<<`, `printDeep`, `printGraph`, the messages of `printDijkstraResults`) and timing (`std::chrono`): I/O and the clock. `printDijkstraResults` is modelled only as the path it reports.
- The random-graph constructor `Graph(V, KMinIn, KMaxIn, KMinOut, KMaxOut)`: randomness.
- `graph.cpp`/`graph.h`, `DrawingUtils.h` and `main.cpp` are not part of this model.
- MinHeaps.MinHeap.DecreaseKey: requires the identity to be present. The source's `operator[]` would insert a 0 index for an absent identity and then read before the vector.
- MinHeaps.MinHeap.Minimum: requires a non-empty heap. The source reads `front()` unchecked.
- MinHeaps.MinHeap.Insert: requires an identity not yet present, as every caller guarantees. No multiset postcondition is stated; the identity view is the abstraction.
- MinHeaps.MinHeap.constructor: requires distinct identities.
- Graphs.Graph.HasEdge: requires the source vertex in range. The source indexes the array unchecked.
- Dijkstra.DijkstraMinHeap: requires weights in [0, `INT_MAX - Unreached`]. Negative weights break the algorithm, and larger ones could overflow `distance + weight` in 32-bit `int`. With that bound, every sum the drivers form fits, so integers are otherwise unbounded.
- Dijkstra.DijkstraFibHeap: the same weight bound as `DijkstraMinHeap`.
- The order in which unordered containers are iterated is left open: edges are taken in any order, and labels are inserted in any order.
- Dijkstra.ReportPath: requires a vertex other than -1. The source calls `back()` on the collected path, which is empty for -1.
- Both decrease-key operations accept an equal key and refuse only a strictly greater one, as the code does.
- `minimum()` returns null on an empty Fibonacci heap. The model follows that, and the binary heap's `minimum()` requires a non-empty heap.
- ShortestPaths.SameDistances: the two drivers are proved to agree on distances only. Ties between equally short paths can give different parents, because the two heaps may extract equal keys in different orders.
- Roots may be marked. `extractMin` clears the parent of each promoted child but not its mark (FibonacciHeap.h:119-122), and `FibonacciHeaps.PromoteChildren` keeps every mark, so the heap invariant does not say that roots are unmarked. `cascadingCut` stops at a root and `link` clears the mark of the node it demotes, so a mark on a root is never read.
- Utils.FindIndexOfMax: specialised to sequences of integers compared by `<`. The template accepts any container whose elements `std::max_element` can compare, and the model says nothing about other element types or orders.
- MinHeaps.MinHeap.DecreaseKey: requires the new key's identity to equal `elemIdentifier`'s. The source looks the position up by `elemIdentifier` and stores `newKey` whole, so a different identity would desynchronise the index; every caller passes the same vertex.
- FibonacciHeaps.Union: requires the two heaps' node sets to be disjoint, which excludes `h.union_(h)`. The source would splice a ring into itself there.

## Findings

| source | as written | input that shows it | evidently intended | confidence | as-written member | corrected member |
|---|---|---|---|---|---|---|
| FibonacciHeap.h:177-192 | The root walk of `consolidate` follows `x = x->right` on the ring that `link` is rewiring. It stops only on reaching `minNode` again | A heap whose root ring is `a`, `b`, `c` (keys 1, 5, 3; degrees 0, 2, 0; `b` has two leaf children). The walk from `a` files `a` under degree 0 and `b` under degree 2. At `c` it links `c` under `a` and continues from `a`, whose right neighbour is now `b`. `b` is not `minNode`, so the walk settles `b` again, finds `b` itself in `A[2]`, and calls `link(b, b)` | visit each root of the ring as it was before linking, exactly once | not executed | FibWalk.WalkSelfLinks | FibonacciHeaps.Consolidate |
| Graph.cpp:78 | `addEdge` and `removeEdge` reject only indices `>= V` | `Edge(-1, 0)` in a graph with one vertex passes the test, and `adj[-1]` is then accessed | reject any endpoint outside `[0, V)` | not executed | Graphs.NegativeSourcePasses | Graphs.Graph.AddEdge |
