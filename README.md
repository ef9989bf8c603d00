# MapDSA graph algorithms in Dafny

MapDSA is a browser page that loads a street graph from a GraphML file and
animates graph algorithms on a map. This project models the sequential graph
logic behind those animations and proves what each piece promises:

- **The loader** (`loadNodes`) registers node ids. It pushes every edge onto
  both endpoints' adjacency lists and deletes nodes left without edges
  (`graphs.dfy`, module `Graphs`). It also defines walks, connectivity and
  forests over edge lists, which the spanning-tree proofs use.
- **The indexed binary min-heap** `PriorityQueue` is a class with a `heap`
  sequence and an `indices` map, both updated in place. It has `swap`,
  `bubbleUp`, `bubbleDown`, `enqueue` (insert or decrease-key) and `dequeue`
  (`priority_queue.dfy`, module `PriorityQueues`). The class invariant is
  heap order plus an index map that agrees with the heap slot by slot. The
  abstract state is `Contents()`, a map from node to entry.
- **Dijkstra's search** stops when the end node is dequeued, and the path is
  then read back along `prev` (`dijkstra.dfy`, module `ShortestPaths`). One
  model covers `dijkstra` in public/algorithms.js and its copy in
  public/index.js. The distance it reports for the end node is proved to be a
  shortest distance. The path it returns is proved to be a walk of exactly
  that weight.
- **Union-find** is a class with the `parent` and `rank` dictionaries, `find`
  with path compression and `union` by rank (`union_find.dfy`, module
  `DisjointSets`).
- **Kruskal's algorithm** collects each undirected edge once and sorts the
  edges with a stable sort (`edge_sort.dfy`, module `EdgeSort`). It then
  keeps every edge that joins two sets (`kruskal.dfy`, module `Kruskal`).
- **Prim's algorithm** comes in both versions (`prim.dfy`, module `Prim`):
  - the heap-driven one in public/algorithms.js;
  - the older one in public/index.js, which re-sorts an array of candidate
    edges on every step.

  For both, every drawn edge is proved to be a lightest edge leaving the
  nodes taken before it (the cut property that makes the greedy choice safe),
  and the drawn edges are proved to form a forest.

Common definitions live in `common.dfy` (module `Common`):
- an `Option` and an error `Result`;
- the distance type `Dist = Fin(n) | Inf`, which stands for JavaScript's
  `Infinity`;
- `Add`, with `Infinity + w = Infinity`;
- the comparisons `Less` and `Le`, with `Infinity < Infinity` false.

Other modelling choices:
- Node ids are naturals. Weights are naturals: the source's `parseFloat` of
  a non-negative length.
- A graph is the order in which the node keys are enumerated, plus a map
  from node to adjacency list.

**Departure from the code as shown.** The heap-driven Prim calls
`pq.enqueue(node, weight, parent)` and reads `current.parent`
(public/algorithms.js:160-196). The only queue in the repository takes two
arguments (public/index.js:155). The entry that queue builds has no `parent`
field (public/index.js:164), so `current.parent` is `undefined`. As
`undefined !== null` holds (public/algorithms.js:172), the code as written
reads `nodes[undefined].lat` (public/algorithms.js:175) on the first dequeue
and throws a `TypeError` before any edge is drawn. The model's queue entries
carry a parent instead. A strict decrease of the
priority replaces the parent together with the priority, as the comment at
public/algorithms.js:195 intends. Every other caller passes no parent (`None`).

## Model

| member | source | states |
|---|---|---|
| Common.Add | public/algorithms.js:78 | `Infinity + w` stays `Infinity`; a finite sum is finite; adding a weight never lowers a distance |
| Graphs.Dedup | public/index.js:20-25 | assigning `nodes[id]` once per parsed node leaves each id exactly once, and the same ids as the input |
| Graphs.Prune | public/index.js:39-44 | the kept nodes are exactly the registered nodes whose adjacency list is non-empty, with no repeats |
| Graphs.RegisterNodes | public/index.js:20-25 | after the node loop every parsed id is a key with an empty adjacency list, in first-occurrence order |
| Graphs.PushEdges | public/index.js:28-37 | every edge is pushed in both directions onto the lists of its ends, in edge order; otherwise the error names the failing end of the first edge with an unregistered end: its source if that is unknown, else its target |
| Graphs.PruneEmpty | public/index.js:39-44 | deleting the nodes with empty lists leaves exactly the nodes with incident edges, each with its pushed list |
| Graphs.LoadGraph | public/index.js:12-44 | loading succeeds exactly when every edge end is a registered node, and then yields the graph built by pushing and pruning; otherwise it reports the failing end of the first edge with an unregistered end |
| Graphs.LoadedProperties | public/index.js:34-44 | the loaded graph is well formed and symmetric; no kept node has an empty list; each input edge is present in both directions with its weight |
| Graphs.IncidentHasBothEnds | public/index.js:35-36 | edge `(s, t, w)` puts `(t, w)` on the list of `s` and `(s, w)` on the list of `t` |
| Graphs.IncidentSymmetric | public/index.js:35-36 | every adjacency entry has its reverse entry with the same weight |
| PriorityQueues.RootIsMin | public/index.js:172-174 | in a heap-ordered array, slot 0 holds a least priority |
| PriorityQueues.SwapIndexed | public/index.js:114-120 | swapping two slots and resetting both indices keeps the index map consistent and the contents unchanged |
| PriorityQueues.UpStep | public/index.js:123-127 | swapping an out-of-place slot with its lighter parent moves the single defect one level up |
| PriorityQueues.UpDone | public/index.js:128-130 | when the defect is at the root or no lighter than its parent, the array is heap ordered |
| PriorityQueues.DownStep | public/index.js:137-148 | swapping a slot with its smallest child moves the single defect one level down |
| PriorityQueues.DownDone | public/index.js:146-151 | when no child is lighter than the defect, the array is heap ordered |
| PriorityQueues.LowerIndexed | public/index.js:158-161 | lowering the priority in place keeps the index map, replaces that node's entry in the contents, and leaves a defect that only `bubbleUp` needs to fix |
| PriorityQueues.PushIndexed | public/index.js:164-168 | pushing an absent node and indexing its slot adds exactly that entry and leaves a defect `bubbleUp` can fix |
| PriorityQueues.PopIndexed | public/index.js:174-179 | moving the last entry to slot 0 and deleting the minimum's index removes exactly the minimum's node |
| PriorityQueues.PopReady | public/index.js:177-180 | after that move, only slot 0 can be out of order, which `bubbleDown(0)` fixes |
| PriorityQueues.PriorityQueue.constructor | public/index.js:105-108 | a new queue is empty and valid |
| PriorityQueues.PriorityQueue.IsEmpty | public/index.js:110-112 | true exactly when the queue holds no node |
| PriorityQueues.PriorityQueue.Swap | public/index.js:114-120 | exchanges two slots and sets both nodes' indices; the contents are unchanged |
| PriorityQueues.PriorityQueue.BubbleUp | public/index.js:122-132 | restores heap order and index consistency; contents and size are unchanged |
| PriorityQueues.PriorityQueue.BubbleDown | public/index.js:134-153 | restores heap order and index consistency; contents and size are unchanged |
| PriorityQueues.PriorityQueue.Enqueue | public/index.js:155-170 | a present node whose new priority is not lower leaves heap and map untouched; a strictly lower priority replaces that node's entry at the same size; an absent node is added and the size grows by one |
| PriorityQueues.PriorityQueue.Dequeue | public/index.js:172-183 | an empty queue yields nothing and is unchanged; otherwise the result is an entry of the queue whose priority is at most every other, and exactly that node is removed |
| DisjointSets.Root | public/index.js:434-439 | following parents from a node ends at a node that is its own parent |
| DisjointSets.RootRankAbove | public/index.js:444-451 | a node's rank is at most its root's rank, and strictly less when the node is not a root |
| DisjointSets.CompressRanked | public/index.js:436 | pointing a node straight at its root keeps the parent/rank invariant |
| DisjointSets.CompressRoot | public/index.js:436 | path compression leaves every node's root unchanged |
| DisjointSets.CompressRoots | public/index.js:436 | path compression leaves the whole root assignment unchanged |
| DisjointSets.LinkKeepsRanked | public/index.js:444-451 | hanging a root below a root of higher rank (after the tie increment) keeps the invariant |
| DisjointSets.LinkRoot | public/index.js:444-451 | after linking root `x` below `y`, the nodes rooted at `x` are rooted at `y` and all other roots stay |
| DisjointSets.LinkRoots | public/index.js:444-451 | linking relabels the root assignment from `x` to `y` |
| DisjointSets.RelabelJoins | public/index.js:440-453 | after merging two sets, two nodes share a root exactly when they did before or each was in one of the merged sets |
| DisjointSets.UnionFind.constructor | public/index.js:428-433 | every node starts as its own parent with rank 0, so each node is its own root |
| DisjointSets.PathRanks | public/index.js:434-439 | every node on the parent path from `n` ranks at least as high as `n`, so `n` is not on its parent's path |
| DisjointSets.UnionFind.Find | public/index.js:434-439 | returns the node's root; every node on the path from it to its root now points straight at the root, every other node keeps its parent; no node's root changes and ranks are unchanged |
| DisjointSets.UnionFind.Link | public/index.js:444-451 | the lower-ranked root joins the higher one; on a tie the second root joins the first, whose rank grows by one; exactly that one parent link changes |
| DisjointSets.UnionFind.Union | public/index.js:440-453 | reports a merge exactly when the roots differ; without a merge nothing observable changes; with one, the sets are merged by rank; afterwards both nodes share a root |
| EdgeSort.SortByWeight | public/index.js:425 | the result is sorted by weight, a permutation of the input, and stable: edges of equal weight keep their relative order |
| EdgeSort.InsertPerm | public/index.js:425 | one insertion step adds exactly the inserted edge to the multiset |
| EdgeSort.InsertSorted | public/index.js:425 | inserting into a sorted list keeps it sorted |
| EdgeSort.InsertStable | public/index.js:425 | inserting puts the edge after every edge of equal weight |
| EdgeSort.SortedMembers | public/index.js:373 | sorting keeps exactly the same edges |
| Kruskal.Key | public/index.js:413 | the key of an edge is its two endpoints in ascending order, the same for both directions |
| Kruskal.FirstPerKeySnoc | public/index.js:413-420 | one more edge is kept exactly when no edge with its unordered endpoint pair was seen; its key is then added to `seen` |
| Kruskal.FirstPerKeyCovers | public/index.js:407-422 | the collected edges are read edges, and every endpoint pair that was read is represented |
| Kruskal.FirstPerKeyUnique | public/index.js:412-415 | no two collected edges share an unordered endpoint pair |
| Kruskal.FlattenIsGraph | public/index.js:409-421 | the edges read from the adjacency lists are exactly edges of the graph, and every adjacency entry is read |
| Kruskal.CollectRow | public/index.js:410-421 | one node's inner loop keeps the collected list and `seen` equal to the first edge per key of everything read |
| Kruskal.CollectEdges | public/index.js:407-422 | the collected edges are the first edge per unordered pair, read in node order and list order |
| Kruskal.RootsApart | public/index.js:457 | nodes with different roots are not connected by the kept edges |
| Kruskal.KeptStep | public/index.js:456-458 | testing roots decides the greedy choice: the next edge is kept exactly when the kept edges leave its two ends unconnected |
| Kruskal.AcceptStep | public/index.js:457-458 | taking an edge whose ends have different roots keeps the kept edges a forest whose components are the union-find sets |
| Kruskal.SkipStep | public/index.js:457 | an edge whose ends already share a root is already covered by the sets |
| Kruskal.SameRootConnected | public/index.js:456-458 | two nodes with the same root are connected by the kept edges |
| Kruskal.Consider | public/index.js:456-458 | one step keeps the edge exactly when its two ends had different roots, and keeps the loop invariant |
| Kruskal.GreedyDone | public/index.js:455-458 | once every sorted edge is considered, the kept edges are the greedy choice over all of them: sorted edges, in weight order, a forest connecting the ends of every sorted edge |
| Kruskal.Greedy | public/index.js:428-458 | the kept edges are exactly the greedy choice (each sorted edge kept when the edges kept before it leave its ends unconnected), in weight order, form a forest, and connect the two ends of every sorted edge |
| Kruskal.EdgeKnown | public/index.js:407-425 | every sorted edge is an edge of the graph between two nodes |
| Kruskal.CoveringEdge | public/index.js:407-425 | every edge of the graph has a sorted edge between the same two nodes |
| Kruskal.Kruskal | public/index.js:405-470 | the emitted edges are the greedy choice over the deduplicated edges sorted by weight; they are graph edges, in non-decreasing weight order, form a forest, and connect the two ends of every edge of the graph |
| ShortestPaths.InitDistances | public/algorithms.js:41-47 | the start node gets distance 0, every other node `Infinity`, and every node no predecessor |
| ShortestPaths.EnqueueAll | public/algorithms.js:50-53 | every node is enqueued exactly once, with its initial distance as priority |
| ShortestPaths.SearchStart | public/algorithms.js:41-53 | the initial state satisfies the search's invariants: a tree of tight edges, a queue of all nodes, nothing taken |
| ShortestPaths.TakeStep | public/algorithms.js:58-59 | dequeuing a least node takes it after every earlier node and at no smaller distance |
| ShortestPaths.WalkBound | public/algorithms.js:58-82 | a least queued distance is at most the weight of any walk from the start to a node not yet taken |
| ShortestPaths.TakeSettled | public/algorithms.js:58-59 | the dequeued node's distance is a shortest distance |
| ShortestPaths.LatestFarthest | public/algorithms.js:58-59 | no earlier dequeued node is farther than the latest one |
| ShortestPaths.RelaxQueued | public/algorithms.js:75-79 | a relaxation that lowers a distance concerns a node still in the queue, never the start node |
| ShortestPaths.RelaxTree | public/algorithms.js:79-81 | setting `distances[v] = distances[u] + w` and `prev[v] = u` keeps a tree of tight edges rooted at the start |
| ShortestPaths.RelaxStep | public/algorithms.js:75-82 | a strict improvement updates `v`, its predecessor and its queue priority together |
| ShortestPaths.RelaxEdges | public/algorithms.js:75-92 | after the inner loop, every edge of the dequeued node is relaxed and the invariants still hold; each node either keeps its distance and predecessor or gets a strictly smaller distance with the dequeued node as predecessor |
| ShortestPaths.SearchFrom | public/algorithms.js:58-96 | the loop ends with the end node dequeued last, at a shortest distance, with a tree of tight predecessor edges and distances in dequeue order |
| ShortestPaths.TightWalk | public/algorithms.js:99-105 | a chain of tight edges is a walk whose weight is exactly the difference of the distances at its ends |
| ShortestPaths.ReconstructPath | public/algorithms.js:98-109 | a path is produced exactly when `prev[target]` is set or the target is the start, and exactly when the target's distance is finite; it runs from the start to the target along tight edges |
| ShortestPaths.Dijkstra | public/algorithms.js:11-109 | unknown ids are rejected; the start keeps distance 0 and no predecessor; the end node's distance is a shortest distance; a returned path is a walk of exactly that weight; no path means no walk reaches the end |
| Prim.GrowForest | public/algorithms.js:172-180 | adding a graph edge from a tree node to a new node keeps a forest of graph edges over the tree nodes |
| Prim.StartQueue | public/algorithms.js:155-164 | every node is enqueued once with no parent: the start with key 0, every other node `Infinity` |
| Prim.PrimStart | public/algorithms.js:150-164 | the initial queue satisfies the loop's invariants |
| Prim.TakeQueue | public/algorithms.js:166-169 | the first node dequeued is the start; afterwards the queue holds exactly the nodes not in `inMST` |
| Prim.TakeCut | public/algorithms.js:166-180 | the edge from a dequeued node's parent is a lightest edge leaving `inMST` |
| Prim.TakeForest | public/algorithms.js:169-180 | drawing that edge keeps the drawn edges a forest of graph edges over `inMST` |
| Prim.TakeBounded | public/algorithms.js:166-169 | every other queued node's key still bounds the edges into it from `inMST`, except those of the new node |
| Prim.TakeAnchor | public/algorithms.js:169-180 | the new node is connected to the current tree's root by the drawn edges |
| Prim.TakeJoined | public/algorithms.js:166-180 | every edge between two `inMST` nodes, other than those of the new node, still joins two connected nodes |
| Prim.CloseJoined | public/algorithms.js:190-198 | in a symmetric graph, the new node's edges into `inMST` also join connected nodes |
| Prim.OfferStep | public/algorithms.js:193-196 | one neighbour's offer lowers its key and records the current node as parent only on a strict decrease |
| Prim.OfferNeighbours | public/algorithms.js:190-198 | the neighbour loop changes only keys it lowers, and leaves every neighbour outside `inMST` keyed at most by its edge weight |
| Prim.OfferQueue | public/algorithms.js:190-198 | the offers keep every queued node's parent edge a graph edge from `inMST` |
| Prim.OfferBounded | public/algorithms.js:190-198 | after the offers, every edge leaving `inMST` is bounded by its target's key |
| Prim.TakenChosen | public/algorithms.js:166-180 | the record of which lightest edge was drawn at which step grows with each dequeue |
| Prim.TakeNext | public/algorithms.js:166-188 | dequeues a least node, adds it to `inMST`, and draws its parent edge when it has one |
| Prim.Round | public/algorithms.js:166-198 | one iteration keeps every invariant and removes exactly the dequeued node from the queue |
| Prim.JoinedSpans | public/algorithms.js:166-199 | once every node is in `inMST`, the drawn edges connect the two ends of every graph edge |
| Prim.Finished | public/algorithms.js:166 | an empty queue means every node is in `inMST` |
| Prim.PrimHeap | public/algorithms.js:143-199 | with no nodes nothing happens; otherwise every node is taken once, the first node first; every drawn edge was a lightest edge leaving the nodes taken before it; the drawn edges form a forest; in a symmetric graph they span every component |
| Prim.LeavingMembers | public/index.js:358-367 | `addEdges(x)` pushes exactly the edges from `x` whose target is not visited |
| Prim.AddEdges | public/index.js:358-367 | appends those edges to the queue in adjacency-list order |
| Prim.EdgesStart | public/index.js:351-370 | after `addEdges(start)` every edge leaving the visited set is queued |
| Prim.PendingSkip | public/index.js:373-375 | dropping a lightest queued edge into the visited set loses no edge that leaves it |
| Prim.PendingAccept | public/index.js:373-377 | the first edge after sorting whose target is unvisited is a lightest edge leaving the visited set |
| Prim.PendingAdd | public/index.js:377-378 | after `addEdges` of the new node, every edge leaving the visited set is queued again |
| Prim.DrawnGrown | public/index.js:377 | the visited set grows by exactly the drawn edge's target, and every drawn edge keeps the cut property |
| Prim.DrawEdge | public/index.js:375-378 | accepting an edge keeps a forest over the visited nodes, all connected to the start |
| Prim.PrimEdges | public/index.js:344-397 | with no nodes nothing happens; otherwise the start is visited first and each drawn edge was a lightest edge leaving the visited nodes; `visited` grows by one per drawn edge; the drawn edges form a forest connecting the start to every visited node; when the loop stops, no edge leaves `visited` |

## Left out

- The map, markers, polylines, tooltips, `alert`/`confirm`, clipboard and input boxes are UI; the model has no display.
- `fetch` of the GraphML file and the `DOMParser` extraction (public/index.js:13-32, 77-79) are I/O and parsing. The loader model takes the parsed node ids and edges as parameters.
- `sleep`/`await`, the `delay` constant, and a second click starting an algorithm while another is suspended inside an `await` are left out. Each algorithm is modelled as one synchronous call.
- The Express server in app.js has no graph logic and is not part of this model.
- Weights are `parseFloat` results in the source; the model uses naturals, so fractional and negative weights and NaN are not covered.
- Graphs.LoadGraph: the node order is the order of first occurrence. JavaScript enumerates integer-like keys in ascending numeric order, so for such ids the real order can differ. Every algorithm is proved for whatever order the graph carries.
- Graphs.LoadGraph: an edge with an unknown end makes the source throw a `TypeError` after pushing the edges read before it. The model returns only the error and does not describe that partial state.
- Kruskal.Key: the `"_"`-joined string key is modelled as the pair of endpoint ids in ascending order. The joined key identifies an unordered pair only for ids without `"_"`: ids `"a_b"`, `"c"` and `"a"`, `"b_c"` both give `"a_b_c"`, so the source would drop the second pair's edges, which the model keeps. With the model's integer ids the two agree.
- Kruskal.Kruskal: proves the emitted edges are a spanning forest in weight order and the greedy choice, not minimal total weight. Minimality does not hold in general: the edge collection keeps the first edge read per endpoint pair (public/index.js:413-415), so with parallel edges A–B of weight 5 read before A–B of weight 1, the tree pays 5 where 1 is possible. For graphs without parallel edges it is the textbook Kruskal, whose minimality is not proved here.
- Prim.PrimHeap: proves the cut property for every drawn edge and a forest, not that the total weight is minimal. The spanning claim is stated only for symmetric graphs, which are what the loader builds.
- Prim.PrimEdges: proves the cut property for every drawn edge, a forest, and that the loop stops at a closed visited set, not that the total weight is minimal.
- Prim.PrimHeap: queue entries carry a parent, which the queue in public/index.js does not store (see the departure noted above).
- Prim.PrimEdges: the in-place `edgeQueue.sort` and `shift` are modelled on sequence values (`SortByWeight`, then dropping the head). `Array.prototype.sort` is modelled as a stable sort.
- Inner loops (the neighbour loop of Prim, the relaxation loop of Dijkstra, the per-node loop of the edge collection) are separate methods called from the main loop. The algorithm's behaviour is unchanged.
- The parent-tree drawing after Dijkstra (public/algorithms.js:114-126) and the distance alert are display only.
