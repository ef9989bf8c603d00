/** Prim's spanning-tree algorithm, in the two versions the repository
    has: the one driven by the indexed heap (`minimumSpanningTree` in
    public/algorithms.js) and an older one that re-sorts an array of
    candidate edges on every step (`minimumSpanningTree` in
    public/index.js). Both draw one edge per node they add, and both only
    ever draw a lightest edge leaving the nodes added so far. */
module Prim {
  import opened Common
  import opened Graphs
  import opened PriorityQueues
  import opened EdgeSort

  // ---------------------------------------------------------------------
  // What both versions promise
  // ---------------------------------------------------------------------

  /** No edge from `x` to a node outside `cut` is lighter than `w`. */
  ghost predicate NoLighterFrom(g: Graph, cut: set<NodeId>, x: NodeId, w: nat)
    requires x in g.adj
  {
    forall a :: a in g.adj[x] && a.target !in cut ==> w <= a.weight
  }

  /** `e` is an edge of `g` from a node of `cut` to a node outside it, and
      no edge leaving `cut` is lighter: the cut property that makes the
      greedy choice of Prim's algorithm safe. */
  ghost predicate LightestCrossing(g: Graph, cut: set<NodeId>, e: Edge)
  {
    && HasEdge(g, e.source, e.target, e.weight)
    && e.source in cut && e.target !in cut
    && forall x {:trigger NoLighterFrom(g, cut, x, e.weight)} :: x in cut && x in g.adj ==> NoLighterFrom(g, cut, x, e.weight)
  }

  /** Every edge of `tree` is an edge of `g`. */
  ghost predicate EdgesOf(g: Graph, tree: seq<Edge>)
  {
    forall e :: e in tree ==> HasEdge(g, e.source, e.target, e.weight)
  }

  /** Every edge of `tree` joins two nodes of `nodes`. */
  ghost predicate Within(tree: seq<Edge>, nodes: set<NodeId>)
  {
    forall e :: e in tree ==> e.source in nodes && e.target in nodes
  }

  /** An edge of `g` from a tree node to a new node keeps the edges a
      forest of edges of `g` over the tree nodes and the new node. */
  lemma GrowForest(g: Graph, tree: seq<Edge>, nodes: set<NodeId>, e: Edge)
    requires Acyclic(tree) && Within(tree, nodes) && EdgesOf(g, tree)
    requires HasEdge(g, e.source, e.target, e.weight) && e.source in nodes && e.target !in nodes
    ensures Acyclic(tree + [e]) && Within(tree + [e], nodes + {e.target}) && EdgesOf(g, tree + [e])
  {
    UntouchedNotConnected(tree, e.source, e.target);
    AcyclicSnoc(tree, e);
  }

  /** A subset of a finite set is no larger than the set. */
  lemma SubsetCard(a: set<NodeId>, b: set<NodeId>)
    requires a <= b
    ensures |a| <= |b|
  {
    assert b == a + (b - a) && a * (b - a) == {};
  }

  // ---------------------------------------------------------------------
  // Prim with the indexed heap (public/algorithms.js:143-199)
  // ---------------------------------------------------------------------

  /** The edge that brings the node of entry `e` into the tree. */
  function TreeEdge(e: Entry): Edge
    requires e.parent.Some? && e.priority.Fin?
  {
    Edge(e.parent.value, e.node, e.priority.n)
  }

  /** The tree after taking entry `e`: one more edge when `e` has a parent. */
  ghost function Grown(tree: seq<Edge>, e: Entry): seq<Edge>
    requires e.parent.Some? ==> e.priority.Fin?
  {
    if e.parent.Some? then tree + [TreeEdge(e)] else tree
  }

  /** The node at which the current tree was started: a node taken without
      a parent starts a new one. */
  ghost function Anchor(anchor: NodeId, e: Entry): NodeId
  {
    if e.parent.Some? then anchor else e.node
  }

  /** The queue entry of `n` while `inTree` holds the nodes taken so far:
      an entry with a parent offers an edge of `g` from a taken node of
      the current tree, weighted by the entry's priority; an entry without
      one is unreached, except the start node's before anything is taken. */
  ghost predicate Candidate(g: Graph, tree: seq<Edge>, inTree: set<NodeId>, anchor: NodeId, start: NodeId, q: map<NodeId, Entry>, n: NodeId)
    requires n in q
  {
    && q[n].node == n
    && match q[n].parent
       case Some(p) => p in inTree && q[n].priority.Fin? && HasEdge(g, p, n, q[n].priority.n) && Connected(tree, p, anchor)
       case None => q[n].priority == if n == start && inTree == {} then Fin(0) else Inf
  }

  /** The queue holds exactly the nodes not taken yet, as candidates. */
  ghost predicate Queue(g: Graph, tree: seq<Edge>, inTree: set<NodeId>, anchor: NodeId, start: NodeId, q: map<NodeId, Entry>)
  {
    && inTree <= g.adj.Keys && q.Keys == g.adj.Keys - inTree
    && forall n {:trigger Candidate(g, tree, inTree, anchor, start, q, n)} :: n in q ==> Candidate(g, tree, inTree, anchor, start, q, n)
  }

  /** `u` has a least priority in `q`: what `dequeue` returns. */
  ghost predicate Least(q: map<NodeId, Entry>, u: NodeId)
  {
    u in q && forall n :: n in q ==> Le(q[u].priority, q[n].priority)
  }

  /** Edge `k` of the taken node `x`: when it leaves the taken nodes, its
      target's priority is at most its weight and `x` is in the current
      tree. */
  ghost predicate BoundedAt(g: Graph, tree: seq<Edge>, inTree: set<NodeId>, anchor: NodeId, q: map<NodeId, Entry>, x: NodeId, k: nat)
    requires x in g.adj && k < |g.adj[x]|
  {
    var a := g.adj[x][k];
    a.target !in inTree ==> a.target in q && Le(q[a.target].priority, Fin(a.weight)) && Connected(tree, x, anchor)
  }

  /** `BoundedAt` for every edge of every taken node except `skip`. */
  ghost predicate Bounded(g: Graph, tree: seq<Edge>, inTree: set<NodeId>, anchor: NodeId, q: map<NodeId, Entry>, skip: Option<NodeId>)
  {
    forall x, k {:trigger BoundedAt(g, tree, inTree, anchor, q, x, k)} ::
      x in inTree && x in g.adj && skip != Some(x) && 0 <= k < |g.adj[x]| ==> BoundedAt(g, tree, inTree, anchor, q, x, k)
  }

  /** Edge `k` of the taken node `x`: when both ends are taken, the tree
      connects them. */
  ghost predicate JoinedAt(g: Graph, tree: seq<Edge>, inTree: set<NodeId>, x: NodeId, k: nat)
    requires x in g.adj && k < |g.adj[x]|
  {
    g.adj[x][k].target in inTree ==> Connected(tree, x, g.adj[x][k].target)
  }

  /** `JoinedAt` for every edge of every taken node except `skip`. */
  ghost predicate Joined(g: Graph, tree: seq<Edge>, inTree: set<NodeId>, skip: Option<NodeId>)
  {
    forall x, k {:trigger JoinedAt(g, tree, inTree, x, k)} ::
      x in inTree && x in g.adj && skip != Some(x) && 0 <= k < |g.adj[x]| ==> JoinedAt(g, tree, inTree, x, k)
  }

  /** Tree edge `k` was drawn when node `taken[at[k]]`, its target, was
      taken, as a lightest edge leaving the nodes taken before it. */
  ghost predicate ChosenAt(g: Graph, taken: seq<NodeId>, tree: seq<Edge>, at: seq<nat>, k: nat)
    requires k < |tree| && k < |at|
  {
    at[k] < |taken| && taken[at[k]] == tree[k].target && LightestCrossing(g, Elems(taken[..at[k]]), tree[k])
  }

  /** Every tree edge was chosen so. */
  ghost predicate Chosen(g: Graph, taken: seq<NodeId>, tree: seq<Edge>, at: seq<nat>)
  {
    |at| == |tree| && forall k {:trigger ChosenAt(g, taken, tree, at, k)} :: 0 <= k < |tree| ==> ChosenAt(g, taken, tree, at, k)
  }

  /** `after` is `before`, or `before` strictly lowered to the weight of an
      edge from `u`, with `u` as the new parent. */
  ghost predicate Offered(g: Graph, u: NodeId, before: Entry, after: Entry)
  {
    || after == before
    || (&& after.node == before.node && after.parent == Some(u) && after.priority.Fin?
        && HasEdge(g, u, after.node, after.priority.n) && Less(after.priority, before.priority))
  }

  /** Edge `k` of `u`: when it leaves the taken nodes, its target's
      priority is at most its weight. */
  ghost predicate LowestAt(g: Graph, inTree: set<NodeId>, q: map<NodeId, Entry>, u: NodeId, k: nat)
    requires u in g.adj && k < |g.adj[u]|
  {
    var a := g.adj[u][k];
    a.target !in inTree ==> a.target in q && Le(q[a.target].priority, Fin(a.weight))
  }

  /** The queue right after the initialisation: every node at `Inf`
      except the start node at 0, none with a parent. */
  lemma PrimStart(g: Graph, start: NodeId, q: map<NodeId, Entry>)
    requires Valid(g) && start in g.adj && q.Keys == g.adj.Keys
    requires forall n :: n in q ==> q[n] == Entry(n, if n == start then Fin(0) else Inf, None)
    ensures Queue(g, [], {}, start, start, q) && Bounded(g, [], {}, start, q, None) && Joined(g, [], {}, None)
  {
    forall n | n in q
      ensures Candidate(g, [], {}, start, start, q, n)
    {
    }
  }

  /** Taking a least entry `u` keeps the queue a queue of candidates; the
      start node is taken first. */
  lemma TakeQueue(g: Graph, tree: seq<Edge>, inTree: set<NodeId>, anchor: NodeId, start: NodeId, q: map<NodeId, Entry>, u: NodeId)
    requires Valid(g) && start in g.adj && Queue(g, tree, inTree, anchor, start, q) && Least(q, u)
    ensures q[u].node == u && (q[u].parent.Some? ==> q[u].priority.Fin?)
    ensures inTree == {} ==> u == start
    ensures Queue(g, Grown(tree, q[u]), inTree + {u}, Anchor(anchor, q[u]), start, q - {u})
  {
    assert Candidate(g, tree, inTree, anchor, start, q, u);
    if inTree == {} {
      assert start in q && Candidate(g, tree, inTree, anchor, start, q, start);
      assert Le(q[u].priority, q[start].priority);
    }
    var tree', inTree', anchor', q' := Grown(tree, q[u]), inTree + {u}, Anchor(anchor, q[u]), q - {u};
    forall n | n in q'
      ensures Candidate(g, tree', inTree', anchor', start, q', n)
    {
      assert Candidate(g, tree, inTree, anchor, start, q, n);
      assert Le(q[u].priority, q[n].priority);
      if q[n].parent.Some? && q[u].parent.Some? {
        ConnectedMono(tree, tree', q[n].parent.value, anchor);
      }
    }
  }

  /** Taking `u` keeps the drawn edges a forest of graph edges over the
      taken nodes. */
  lemma TakeForest(g: Graph, tree: seq<Edge>, inTree: set<NodeId>, anchor: NodeId, start: NodeId, q: map<NodeId, Entry>, u: NodeId)
    requires Valid(g) && Queue(g, tree, inTree, anchor, start, q) && u in q
    requires Acyclic(tree) && Within(tree, inTree) && EdgesOf(g, tree)
    ensures q[u].parent.Some? ==> q[u].priority.Fin?
    ensures Acyclic(Grown(tree, q[u])) && Within(Grown(tree, q[u]), inTree + {u}) && EdgesOf(g, Grown(tree, q[u]))
  {
    assert Candidate(g, tree, inTree, anchor, start, q, u);
    if q[u].parent.Some? {
      GrowForest(g, tree, inTree, TreeEdge(q[u]));
    }
  }

  /** The edge drawn for a least entry is a lightest edge leaving the
      taken nodes. */
  lemma TakeCut(g: Graph, tree: seq<Edge>, inTree: set<NodeId>, anchor: NodeId, start: NodeId, q: map<NodeId, Entry>, u: NodeId)
    requires Valid(g) && Queue(g, tree, inTree, anchor, start, q) && Bounded(g, tree, inTree, anchor, q, None)
    requires Least(q, u) && q[u].parent.Some?
    ensures q[u].priority.Fin? && LightestCrossing(g, inTree, TreeEdge(q[u]))
  {
    assert Candidate(g, tree, inTree, anchor, start, q, u);
    var w := q[u].priority.n;
    forall x | x in inTree && x in g.adj
      ensures NoLighterFrom(g, inTree, x, w)
    {
      forall a | a in g.adj[x] && a.target !in inTree
        ensures w <= a.weight
      {
        var k :| 0 <= k < |g.adj[x]| && g.adj[x][k] == a;
        assert BoundedAt(g, tree, inTree, anchor, q, x, k);
        assert Le(q[u].priority, q[a.target].priority);
      }
    }
  }

  /** Taking `u` keeps every edge of the other taken nodes bounded. */
  lemma TakeBounded(g: Graph, tree: seq<Edge>, inTree: set<NodeId>, anchor: NodeId, start: NodeId, q: map<NodeId, Entry>, u: NodeId)
    requires Valid(g) && Queue(g, tree, inTree, anchor, start, q) && Bounded(g, tree, inTree, anchor, q, None)
    requires Least(q, u)
    ensures q[u].parent.Some? ==> q[u].priority.Fin?
    ensures Bounded(g, Grown(tree, q[u]), inTree + {u}, Anchor(anchor, q[u]), q - {u}, Some(u))
  {
    assert Candidate(g, tree, inTree, anchor, start, q, u);
    var tree', inTree', anchor', q' := Grown(tree, q[u]), inTree + {u}, Anchor(anchor, q[u]), q - {u};
    forall x, k | x in inTree' && x in g.adj && Some(u) != Some(x) && 0 <= k < |g.adj[x]|
      ensures BoundedAt(g, tree', inTree', anchor', q', x, k)
    {
      assert BoundedAt(g, tree, inTree, anchor, q, x, k);
      var y := g.adj[x][k].target;
      if y !in inTree' {
        assert Le(q[u].priority, q[y].priority);
        if q[u].parent.Some? {
          ConnectedMono(tree, tree', x, anchor);
        }
      }
    }
  }

  /** Taking `u` connects it, in the tree, to the node at which its tree
      was started. */
  lemma TakeAnchor(g: Graph, tree: seq<Edge>, inTree: set<NodeId>, anchor: NodeId, start: NodeId, q: map<NodeId, Entry>, u: NodeId)
    requires Valid(g) && Queue(g, tree, inTree, anchor, start, q) && u in q
    ensures q[u].parent.Some? ==> q[u].priority.Fin?
    ensures Connected(Grown(tree, q[u]), u, Anchor(anchor, q[u]))
  {
    assert Candidate(g, tree, inTree, anchor, start, q, u);
    var tree' := Grown(tree, q[u]);
    if q[u].parent.Some? {
      var p := q[u].parent.value;
      ConnectedByEdge(tree', TreeEdge(q[u]));
      ConnectedMono(tree, tree', p, anchor);
      ConnectedTrans(tree', u, p, anchor);
    } else {
      ConnectedSelf(tree', u);
    }
  }

  /** Taking `u` keeps the tree connecting the two ends of every edge of
      the other taken nodes. */
  lemma TakeJoined(g: Graph, tree: seq<Edge>, inTree: set<NodeId>, anchor: NodeId, start: NodeId, q: map<NodeId, Entry>, u: NodeId)
    requires Valid(g) && Queue(g, tree, inTree, anchor, start, q) && Bounded(g, tree, inTree, anchor, q, None)
    requires Joined(g, tree, inTree, None) && Least(q, u)
    ensures q[u].parent.Some? ==> q[u].priority.Fin?
    ensures Joined(g, Grown(tree, q[u]), inTree + {u}, Some(u))
  {
    assert Candidate(g, tree, inTree, anchor, start, q, u);
    var tree', inTree' := Grown(tree, q[u]), inTree + {u};
    forall x, k | x in inTree' && x in g.adj && Some(u) != Some(x) && 0 <= k < |g.adj[x]|
      ensures JoinedAt(g, tree', inTree', x, k)
    {
      var y := g.adj[x][k].target;
      if y in inTree {
        assert JoinedAt(g, tree, inTree, x, k);
        ConnectedMono(tree, tree', x, y);
      } else if y == u {
        assert BoundedAt(g, tree, inTree, anchor, q, x, k);
        TakeAnchor(g, tree, inTree, anchor, start, q, u);
        ConnectedMono(tree, tree', x, anchor);
        ConnectedSym(tree', u, anchor);
        ConnectedTrans(tree', x, anchor, u);
      }
    }
  }

  /** In a symmetric graph, the newly taken node `u` is connected to each
      taken node it has an edge to. */
  lemma CloseJoined(g: Graph, tree: seq<Edge>, inTree: set<NodeId>, u: NodeId)
    requires Valid(g) && Symmetric(g) && u in inTree && Joined(g, tree, inTree, Some(u))
    ensures Joined(g, tree, inTree, None)
  {
    forall x, k | x in inTree && x in g.adj && 0 <= k < |g.adj[x]|
      ensures JoinedAt(g, tree, inTree, x, k)
    {
      var a := g.adj[x][k];
      if x == u && a.target in inTree {
        if a.target == u {
          ConnectedSelf(tree, u);
        } else {
          assert HasEdge(g, a.target, u, a.weight);
          var k' :| 0 <= k' < |g.adj[a.target]| && g.adj[a.target][k'] == Adj(u, a.weight);
          assert JoinedAt(g, tree, inTree, a.target, k');
          ConnectedSym(tree, a.target, u);
        }
      }
    }
  }

  /** Offering `u`'s edges keeps the queue a queue of candidates. */
  lemma OfferQueue(g: Graph, tree: seq<Edge>, inTree: set<NodeId>, anchor: NodeId, start: NodeId, q: map<NodeId, Entry>, q': map<NodeId, Entry>, u: NodeId)
    requires Queue(g, tree, inTree, anchor, start, q) && u in inTree && Connected(tree, u, anchor)
    requires q'.Keys == q.Keys && forall n :: n in q' ==> Offered(g, u, q[n], q'[n])
    ensures Queue(g, tree, inTree, anchor, start, q')
  {
    forall n | n in q'
      ensures Candidate(g, tree, inTree, anchor, start, q', n)
    {
      assert Candidate(g, tree, inTree, anchor, start, q, n);
    }
  }

  /** Offering `u`'s edges keeps every edge of the taken nodes bounded,
      now including `u`'s own. */
  lemma OfferBounded(g: Graph, tree: seq<Edge>, inTree: set<NodeId>, anchor: NodeId, q: map<NodeId, Entry>, q': map<NodeId, Entry>, u: NodeId)
    requires Bounded(g, tree, inTree, anchor, q, Some(u)) && u in g.adj && Connected(tree, u, anchor)
    requires q'.Keys == q.Keys && forall n :: n in q' ==> Offered(g, u, q[n], q'[n])
    requires forall k :: 0 <= k < |g.adj[u]| ==> LowestAt(g, inTree, q', u, k)
    ensures Bounded(g, tree, inTree, anchor, q', None)
  {
    forall x, k | x in inTree && x in g.adj && 0 <= k < |g.adj[x]|
      ensures BoundedAt(g, tree, inTree, anchor, q', x, k)
    {
      var y := g.adj[x][k].target;
      if x == u {
        assert LowestAt(g, inTree, q', u, k);
      } else if y !in inTree {
        assert BoundedAt(g, tree, inTree, anchor, q, x, k);
        assert Offered(g, u, q[y], q'[y]);
        LeTrans(q'[y].priority, q[y].priority, Fin(g.adj[x][k].weight));
      }
    }
  }

  /** One more offer keeps every entry an offer and the first `j + 1`
      edges of `u` lowest. */
  lemma OfferStep(g: Graph, inTree: set<NodeId>, q0: map<NodeId, Entry>, q: map<NodeId, Entry>, q': map<NodeId, Entry>, u: NodeId, j: nat)
    requires u in g.adj && j < |g.adj[u]| && g.adj[u][j].target !in inTree
    requires q.Keys == q0.Keys && g.adj[u][j].target in q && q0[g.adj[u][j].target].node == g.adj[u][j].target
    requires forall n :: n in q ==> Offered(g, u, q0[n], q[n])
    requires forall k :: 0 <= k < j ==> LowestAt(g, inTree, q, u, k)
    requires var v, w := g.adj[u][j].target, g.adj[u][j].weight;
      if Less(Fin(w), q[v].priority) then q' == q[v := Entry(v, Fin(w), Some(u))] else q' == q
    ensures q'.Keys == q0.Keys && forall n :: n in q' ==> Offered(g, u, q0[n], q'[n])
    ensures forall k :: 0 <= k < j + 1 ==> LowestAt(g, inTree, q', u, k)
  {
    var v, w := g.adj[u][j].target, g.adj[u][j].weight;
    if Less(Fin(w), q[v].priority) {
      assert HasEdge(g, u, v, w);
      assert Offered(g, u, q0[v], q[v]);
      forall k | 0 <= k < j + 1
        ensures LowestAt(g, inTree, q', u, k)
      {
        if k < j {
          assert LowestAt(g, inTree, q, u, k);
          var y := g.adj[u][k].target;
          if y == v && y !in inTree {
            LeTrans(q'[y].priority, q[y].priority, Fin(g.adj[u][k].weight));
          }
        }
      }
    }
  }

  /** Offering every edge of the newly taken node `u`
      (public/algorithms.js:190-197): each neighbour not taken yet is
      enqueued with the edge weight and `u` as parent, which lowers its
      entry only when the weight is strictly lower. Afterwards every
      entry is its old one or a strict lowering through an edge from `u`,
      and no edge of `u` to a queued node is lighter than its target's
      priority. */
  method OfferNeighbours(g: Graph, pq: PriorityQueue, inTree: set<NodeId>, u: NodeId)
    requires Valid(g) && pq.Valid() && u in g.adj
    requires pq.Contents().Keys == g.adj.Keys - inTree
    requires forall n :: n in pq.Contents() ==> pq.Contents()[n].node == n
    modifies pq
    ensures pq.Valid() && pq.Contents().Keys == old(pq.Contents()).Keys
    ensures forall n :: n in pq.Contents() ==> Offered(g, u, old(pq.Contents())[n], pq.Contents()[n])
    ensures forall k :: 0 <= k < |g.adj[u]| ==> LowestAt(g, inTree, pq.Contents(), u, k)
  {
    ghost var q0 := pq.Contents();
    var adj := g.adj[u];
    var j := 0;
    while j < |adj|
      invariant j <= |adj| && pq.Valid() && pq.Contents().Keys == q0.Keys
      invariant forall n :: n in pq.Contents() ==> Offered(g, u, q0[n], pq.Contents()[n])
      invariant forall k :: 0 <= k < j ==> LowestAt(g, inTree, pq.Contents(), u, k)
    {
      var neighbour, weight := adj[j].target, adj[j].weight;
      if neighbour !in inTree {
        assert neighbour in g.adj;
        ghost var q := pq.Contents();
        pq.Enqueue(neighbour, Fin(weight), Some(u));
        OfferStep(g, inTree, q0, q, pq.Contents(), u, j);
      } else {
        assert LowestAt(g, inTree, pq.Contents(), u, j);
      }
      j := j + 1;
    }
  }

  /** Adding `x` to a sequence without repetitions that lacks it. */
  lemma DistinctSnoc(s: seq<NodeId>, x: NodeId)
    requires Distinct(s) && x !in Elems(s)
    ensures Distinct(s + [x]) && Elems(s + [x]) == Elems(s) + {x}
  {
    assert forall i :: 0 <= i < |s| ==> s[i] in Elems(s);
  }

  /** One dequeue of the heap-driven Prim (public/algorithms.js:166-188):
      a least entry is removed and its node `u` taken; when the entry has
      a parent, the edge from the parent to `u` is drawn, and otherwise
      `u` starts a new tree. */
  method TakeNext(g: Graph, start: NodeId, pq: PriorityQueue, tree: seq<Edge>, inTree: set<NodeId>, ghost anchor: NodeId, ghost taken: seq<NodeId>, ghost at: seq<nat>)
    returns (u: NodeId, tree': seq<Edge>, inTree': set<NodeId>, ghost anchor': NodeId, ghost taken': seq<NodeId>, ghost at': seq<nat>)
    requires Valid(g) && start in g.adj && pq.Valid() && pq.Contents() != map[]
    requires Queue(g, tree, inTree, anchor, start, pq.Contents()) && Bounded(g, tree, inTree, anchor, pq.Contents(), None)
    requires Symmetric(g) ==> Joined(g, tree, inTree, None)
    requires Acyclic(tree) && Within(tree, inTree) && EdgesOf(g, tree)
    requires Distinct(taken) && Elems(taken) == inTree && (taken != [] ==> taken[0] == start)
    requires Chosen(g, taken, tree, at)
    modifies pq
    ensures u in old(pq.Contents()) && Least(old(pq.Contents()), u)
    ensures pq.Valid() && pq.Contents() == old(pq.Contents()) - {u}
    ensures old(pq.Contents())[u].parent.Some? ==> old(pq.Contents())[u].priority.Fin?
    ensures tree' == Grown(tree, old(pq.Contents())[u]) && inTree' == inTree + {u}
    ensures Queue(g, tree', inTree', anchor', start, pq.Contents()) && Bounded(g, tree', inTree', anchor', pq.Contents(), Some(u))
    ensures u in g.adj && Connected(tree', u, anchor')
    ensures Symmetric(g) ==> Joined(g, tree', inTree', None)
    ensures Acyclic(tree') && Within(tree', inTree') && EdgesOf(g, tree')
    ensures Distinct(taken') && Elems(taken') == inTree' && taken' != [] && taken'[0] == start
    ensures Chosen(g, taken', tree', at')
    ensures forall n :: n in pq.Contents() ==> pq.Contents()[n].node == n
  {
    ghost var q := pq.Contents();
    var current := pq.Dequeue();
    var entry := current.value;
    u := entry.node;
    TakeQueue(g, tree, inTree, anchor, start, q, u);
    TakeForest(g, tree, inTree, anchor, start, q, u);
    TakeBounded(g, tree, inTree, anchor, start, q, u);
    TakeAnchor(g, tree, inTree, anchor, start, q, u);
    if Symmetric(g) {
      TakeJoined(g, tree, inTree, anchor, start, q, u);
    }
    if entry.parent.Some? {
      TakeCut(g, tree, inTree, anchor, start, q, u);
      TakenChosen(g, taken, tree, at, u, TreeEdge(entry));
      tree' := tree + [TreeEdge(entry)];
      anchor', at' := anchor, at + [|taken|];
    } else {
      TakenChosen(g, taken, tree, at, u, Edge(u, u, 0));
      tree' := tree;
      anchor', at' := u, at;
    }
    DistinctSnoc(taken, u);
    taken' := taken + [u];
    inTree' := inTree + {u};
    if Symmetric(g) {
      CloseJoined(g, tree', inTree', u);
    }
    forall n | n in pq.Contents()
      ensures pq.Contents()[n].node == n
    {
      assert Candidate(g, tree', inTree', anchor', start, pq.Contents(), n);
    }
  }

  /** With the queue empty every node is taken, and in a symmetric graph
      the tree connects the two ends of every edge. */
  lemma Finished(g: Graph, tree: seq<Edge>, inTree: set<NodeId>, anchor: NodeId, start: NodeId, q: map<NodeId, Entry>)
    requires Valid(g) && Queue(g, tree, inTree, anchor, start, q) && q == map[]
    requires Symmetric(g) ==> Joined(g, tree, inTree, None)
    ensures inTree == g.adj.Keys
    ensures Symmetric(g) ==> forall u, v, w :: HasEdge(g, u, v, w) ==> Connected(tree, u, v)
  {
    forall n | n in g.adj.Keys
      ensures n in inTree
    {
      assert n !in q.Keys;
    }
    assert inTree == g.adj.Keys;
    if Symmetric(g) {
      JoinedSpans(g, tree);
    }
  }

  /** Once every node is taken, a tree joining the two ends of every edge
      of every taken node connects the two ends of every edge. */
  lemma JoinedSpans(g: Graph, tree: seq<Edge>)
    requires Valid(g) && Joined(g, tree, g.adj.Keys, None)
    ensures forall u, v, w :: HasEdge(g, u, v, w) ==> Connected(tree, u, v)
  {
    forall u, v, w | HasEdge(g, u, v, w)
      ensures Connected(tree, u, v)
    {
      var k :| 0 <= k < |g.adj[u]| && g.adj[u][k] == Adj(v, w);
      assert JoinedAt(g, tree, g.adj.Keys, u, k);
    }
  }

  /** The initialisation (public/algorithms.js:150-164): a new queue
      holding every node once, the start node at 0 and every other node at
      `Inf`, none with a parent. */
  method StartQueue(g: Graph, start: NodeId) returns (pq: PriorityQueue)
    requires Valid(g) && start in g.adj
    ensures fresh(pq) && pq.Valid() && |pq.heap| == |g.order| && pq.Contents().Keys == g.adj.Keys
    ensures forall n :: n in pq.Contents() ==> pq.Contents()[n] == Entry(n, if n == start then Fin(0) else Inf, None)
  {
    pq := new PriorityQueue();
    var i := 0;
    while i < |g.order|
      invariant i <= |g.order| && pq.Valid() && fresh(pq) && |pq.heap| == i
      invariant forall n :: n in pq.Contents() <==> n in g.order[..i]
      invariant forall n :: n in pq.Contents() ==> pq.Contents()[n] == Entry(n, if n == start then Fin(0) else Inf, None)
    {
      var node := g.order[i];
      assert g.order[..i + 1] == g.order[..i] + [node];
      assert node !in g.order[..i];
      if node == start {
        pq.Enqueue(node, Fin(0), None);
      } else {
        pq.Enqueue(node, Inf, None);
      }
      i := i + 1;
    }
    assert g.order[..i] == g.order;
  }

  /** Everything the main loop of `prim` keeps: the queue invariant, the
      bound on edges leaving the taken nodes, the forest facts and the
      record of which lightest edge was drawn at which step. */
  ghost predicate Growing(g: Graph, start: NodeId, tree: seq<Edge>, inTree: set<NodeId>, anchor: NodeId, taken: seq<NodeId>, at: seq<nat>, q: map<NodeId, Entry>)
  {
    && Queue(g, tree, inTree, anchor, start, q) && Bounded(g, tree, inTree, anchor, q, None)
    && (Symmetric(g) ==> Joined(g, tree, inTree, None))
    && Acyclic(tree) && Within(tree, inTree) && EdgesOf(g, tree)
    && Distinct(taken) && Elems(taken) == inTree && (taken != [] ==> taken[0] == start)
    && Chosen(g, taken, tree, at)
  }

  /** One round of the main loop: dequeue a least node, take it (with the
      edge from its recorded parent, if any) and offer its neighbours. */
  method Round(g: Graph, start: NodeId, pq: PriorityQueue, tree: seq<Edge>, inTree: set<NodeId>, ghost anchor: NodeId, ghost taken: seq<NodeId>, ghost at: seq<nat>)
    returns (u: NodeId, tree': seq<Edge>, inTree': set<NodeId>, ghost anchor': NodeId, ghost taken': seq<NodeId>, ghost at': seq<nat>)
    requires Valid(g) && start in g.adj && pq.Valid() && pq.Contents() != map[]
    requires Growing(g, start, tree, inTree, anchor, taken, at, pq.Contents())
    modifies pq
    ensures pq.Valid() && Least(old(pq.Contents()), u) && pq.Contents().Keys == old(pq.Contents()).Keys - {u}
    ensures old(pq.Contents())[u].parent.Some? ==> old(pq.Contents())[u].priority.Fin?
    ensures tree' == Grown(tree, old(pq.Contents())[u]) && inTree' == inTree + {u}
    ensures Growing(g, start, tree', inTree', anchor', taken', at', pq.Contents())
    ensures |pq.Contents().Keys| < |old(pq.Contents()).Keys|
  {
    ghost var q0 := pq.Contents();
    u, tree', inTree', anchor', taken', at' := TakeNext(g, start, pq, tree, inTree, anchor, taken, at);
    ghost var q1 := pq.Contents();
    OfferNeighbours(g, pq, inTree', u);
    OfferQueue(g, tree', inTree', anchor', start, q1, pq.Contents(), u);
    OfferBounded(g, tree', inTree', anchor', q1, pq.Contents(), u);
    assert q0.Keys == q1.Keys + {u};
  }

  /** The heap-driven Prim. With no nodes there is nothing to do.
      Otherwise every node is taken exactly once, the start node (the
      first node) first; each drawn edge is an edge of the graph that was
      a lightest edge leaving the nodes taken before its target; the
      drawn edges form a forest; and in a graph whose edges go both ways
      (as the loader builds them) they connect the two ends of every
      edge, so they span every connected part of the graph. */
  method PrimHeap(g: Graph) returns (r: Option<seq<Edge>>, ghost taken: seq<NodeId>, ghost at: seq<nat>)
    requires Valid(g)
    ensures r.None? <==> g.order == []
    ensures r.Some? ==> Distinct(taken) && Elems(taken) == g.adj.Keys && taken != [] && taken[0] == g.order[0]
    ensures r.Some? ==> EdgesOf(g, r.value) && Acyclic(r.value) && Chosen(g, taken, r.value, at)
    ensures r.Some? && Symmetric(g) ==> forall u, v, w :: HasEdge(g, u, v, w) ==> Connected(r.value, u, v)
  {
    if |g.order| == 0 {
      return None, [], [];
    }
    var start := g.order[0];
    var pq := StartQueue(g, start);
    var inTree: set<NodeId> := {};
    var tree: seq<Edge> := [];
    ghost var anchor := start;
    taken, at := [], [];
    PrimStart(g, start, pq.Contents());
    while !pq.IsEmpty()
      invariant pq.Valid() && Growing(g, start, tree, inTree, anchor, taken, at, pq.Contents())
      decreases |pq.Contents().Keys|
    {
      var u;
      u, tree, inTree, anchor, taken, at := Round(g, start, pq, tree, inTree, anchor, taken, at);
    }
    Finished(g, tree, inTree, anchor, start, pq.Contents());
    assert start in Elems(taken);
    return Some(tree), taken, at;
  }

  /** Taking `u` keeps every earlier choice recorded, and records the edge
      `e` drawn for `u` when it is a lightest edge leaving the taken nodes. */
  lemma TakenChosen(g: Graph, taken: seq<NodeId>, tree: seq<Edge>, at: seq<nat>, u: NodeId, e: Edge)
    requires Chosen(g, taken, tree, at)
    ensures Chosen(g, taken + [u], tree, at)
    ensures e.target == u && LightestCrossing(g, Elems(taken), e) ==> Chosen(g, taken + [u], tree + [e], at + [|taken|])
  {
    var taken' := taken + [u];
    forall k | 0 <= k < |tree|
      ensures ChosenAt(g, taken', tree, at, k) && ChosenAt(g, taken', tree + [e], at + [|taken|], k)
    {
      assert ChosenAt(g, taken, tree, at, k);
      assert taken'[..at[k]] == taken[..at[k]];
    }
    if e.target == u && LightestCrossing(g, Elems(taken), e) {
      assert taken'[..|taken|] == taken;
      assert ChosenAt(g, taken', tree + [e], at + [|taken|], |tree|);
    }
  }

  // ---------------------------------------------------------------------
  // Prim over a re-sorted edge array (public/index.js:344-397)
  // ---------------------------------------------------------------------

  /** The edges `addEdges(x)` pushes for the adjacency list `adj` of `x`:
      one per entry whose target is not visited, in list order. */
  function Leaving(x: NodeId, adj: seq<Adj>, visited: set<NodeId>): seq<Edge>
  {
    if adj == [] then []
    else
      var a := adj[|adj| - 1];
      Leaving(x, adj[..|adj| - 1], visited) + if a.target in visited then [] else [Edge(x, a.target, a.weight)]
  }

  /** The pushed edges are exactly the edges of the list that leave the
      visited nodes. */
  lemma {:induction false} LeavingMembers(x: NodeId, adj: seq<Adj>, visited: set<NodeId>, e: Edge)
    ensures e in Leaving(x, adj, visited) <==> e.source == x && Adj(e.target, e.weight) in adj && e.target !in visited
  {
    if adj != [] {
      var init := adj[..|adj| - 1];
      LeavingMembers(x, init, visited, e);
      assert adj == init + [adj[|adj| - 1]];
    }
  }

  /** `addEdges(x)` (public/index.js:357-367): appends to `queue` an edge
      from `x` for every entry of `x`'s adjacency list whose target is not
      visited. */
  method AddEdges(g: Graph, x: NodeId, visited: set<NodeId>, queue: seq<Edge>) returns (queue': seq<Edge>)
    requires x in g.adj
    ensures queue' == queue + Leaving(x, g.adj[x], visited)
  {
    var adj := g.adj[x];
    queue' := queue;
    var j := 0;
    while j < |adj|
      invariant j <= |adj| && queue' == queue + Leaving(x, adj[..j], visited)
    {
      assert adj[..j + 1][..j] == adj[..j];
      if adj[j].target !in visited {
        queue' := queue' + [Edge(x, adj[j].target, adj[j].weight)];
      }
      j := j + 1;
    }
    assert adj[..j] == adj;
  }

  /** The start node and the targets of the drawn edges: the visited set. */
  ghost function Visited(start: NodeId, tree: seq<Edge>): set<NodeId>
  {
    {start} + set e | e in tree :: e.target
  }

  /** Every edge of a visited node `x` to a node not visited is in the
      queue. */
  ghost predicate PendingAt(g: Graph, visited: set<NodeId>, queue: seq<Edge>, x: NodeId, k: nat)
    requires x in g.adj && k < |g.adj[x]|
  {
    var a := g.adj[x][k];
    a.target !in visited ==> Edge(x, a.target, a.weight) in queue
  }

  /** The queue holds graph edges from visited nodes, among them every
      edge leaving the visited nodes, except perhaps those of `skip`. */
  ghost predicate Pending(g: Graph, visited: set<NodeId>, queue: seq<Edge>, skip: Option<NodeId>)
  {
    && (forall e :: e in queue ==> e.source in visited && HasEdge(g, e.source, e.target, e.weight))
    && forall x, k {:trigger PendingAt(g, visited, queue, x, k)} ::
         x in visited && x in g.adj && skip != Some(x) && 0 <= k < |g.adj[x]| ==> PendingAt(g, visited, queue, x, k)
  }

  /** No edge of `g` leaves `visited`. */
  ghost predicate Closed(g: Graph, visited: set<NodeId>)
  {
    forall u, v, w :: u in visited && HasEdge(g, u, v, w) ==> v in visited
  }

  /** Edge `k` of `tree` was a lightest edge leaving the nodes visited
      before it. */
  ghost predicate GrownAt(g: Graph, start: NodeId, tree: seq<Edge>, k: nat)
    requires k < |tree|
  {
    LightestCrossing(g, Visited(start, tree[..k]), tree[k])
  }

  /** Pushing the edges of the newly visited `x` keeps every edge leaving
      the visited nodes queued. */
  lemma PendingAdd(g: Graph, visited: set<NodeId>, queue: seq<Edge>, x: NodeId)
    requires Valid(g) && x in g.adj && x in visited
    requires Pending(g, visited, queue, Some(x))
    ensures Pending(g, visited, queue + Leaving(x, g.adj[x], visited), None)
  {
    var queue' := queue + Leaving(x, g.adj[x], visited);
    forall e | e in queue'
      ensures e.source in visited && HasEdge(g, e.source, e.target, e.weight)
    {
      if e !in queue {
        LeavingMembers(x, g.adj[x], visited, e);
      }
    }
    forall y, k | y in visited && y in g.adj && 0 <= k < |g.adj[y]|
      ensures PendingAt(g, visited, queue', y, k)
    {
      var a := g.adj[y][k];
      if a.target !in visited {
        if y == x {
          LeavingMembers(x, g.adj[x], visited, Edge(x, a.target, a.weight));
        } else {
          assert PendingAt(g, visited, queue, y, k);
        }
      }
    }
  }

  /** The start of the loop: the start node visited, its edges queued. */
  lemma EdgesStart(g: Graph, start: NodeId, queue: seq<Edge>)
    requires Valid(g) && start in g.adj && queue == Leaving(start, g.adj[start], {start})
    ensures Pending(g, {start}, queue, None)
  {
    PendingAdd(g, {start}, [], start);
    assert [] + queue == queue;
  }

  /** Shifting a sorted queue's first edge, whose target is visited,
      keeps every edge leaving the visited nodes queued. */
  lemma PendingSkip(g: Graph, visited: set<NodeId>, queue: seq<Edge>, sorted: seq<Edge>)
    requires Pending(g, visited, queue, None) && |sorted| > 0
    requires forall e :: e in sorted <==> e in queue
    requires sorted[0].target in visited
    ensures Pending(g, visited, sorted[1..], None)
  {
    var rest := sorted[1..];
    assert sorted == [sorted[0]] + rest;
    forall x, k | x in visited && x in g.adj && 0 <= k < |g.adj[x]|
      ensures PendingAt(g, visited, rest, x, k)
    {
      assert PendingAt(g, visited, queue, x, k);
    }
  }

  /** The first edge of the sorted queue, when its target is new, is a
      lightest edge leaving the visited nodes; shifting it and visiting
      its target keeps every other edge leaving them queued. */
  lemma PendingAccept(g: Graph, visited: set<NodeId>, queue: seq<Edge>, sorted: seq<Edge>)
    requires Pending(g, visited, queue, None) && |sorted| > 0
    requires SortedByWeight(sorted) && forall e :: e in sorted <==> e in queue
    requires sorted[0].target !in visited
    ensures LightestCrossing(g, visited, sorted[0])
    ensures Pending(g, visited + {sorted[0].target}, sorted[1..], Some(sorted[0].target))
  {
    var e, rest := sorted[0], sorted[1..];
    assert sorted == [e] + rest;
    forall x | x in visited && x in g.adj
      ensures NoLighterFrom(g, visited, x, e.weight)
    {
      forall a | a in g.adj[x] && a.target !in visited
        ensures e.weight <= a.weight
      {
        var k :| 0 <= k < |g.adj[x]| && g.adj[x][k] == a;
        assert PendingAt(g, visited, queue, x, k);
        var i :| 0 <= i < |sorted| && sorted[i] == Edge(x, a.target, a.weight);
        if i > 0 {
          assert sorted[0].weight <= sorted[i].weight;
        }
      }
    }
    var visited' := visited + {e.target};
    forall x, k | x in visited' && x in g.adj && Some(e.target) != Some(x) && 0 <= k < |g.adj[x]|
      ensures PendingAt(g, visited', rest, x, k)
    {
      assert PendingAt(g, visited, queue, x, k);
    }
  }

  /** Drawing `e`, a lightest edge leaving the visited nodes, records it
      and grows the visited nodes by its target. */
  lemma DrawnGrown(g: Graph, start: NodeId, tree: seq<Edge>, e: Edge)
    requires forall k :: 0 <= k < |tree| ==> GrownAt(g, start, tree, k)
    requires LightestCrossing(g, Visited(start, tree), e)
    ensures forall k :: 0 <= k < |tree| + 1 ==> GrownAt(g, start, tree + [e], k)
    ensures Visited(start, tree + [e]) == Visited(start, tree) + {e.target}
  {
    var tree' := tree + [e];
    forall k | 0 <= k < |tree'|
      ensures GrownAt(g, start, tree', k)
    {
      if k < |tree| {
        assert GrownAt(g, start, tree, k);
        assert tree'[..k] == tree[..k];
      } else {
        assert tree'[..k] == tree;
      }
    }
  }

  /** Drawing `e`, a lightest edge leaving the visited nodes, keeps the
      drawn edges a forest of graph edges, each a lightest edge leaving the
      nodes visited before it, that connects the start node to every
      visited node, now including `e`'s target. */
  lemma DrawEdge(g: Graph, start: NodeId, tree: seq<Edge>, visited: set<NodeId>, e: Edge)
    requires visited == Visited(start, tree) && |visited| == |tree| + 1
    requires Acyclic(tree) && Within(tree, visited) && EdgesOf(g, tree)
    requires forall k :: 0 <= k < |tree| ==> GrownAt(g, start, tree, k)
    requires forall v :: v in visited ==> Connected(tree, start, v)
    requires LightestCrossing(g, visited, e)
    ensures visited + {e.target} == Visited(start, tree + [e]) && |visited + {e.target}| == |tree + [e]| + 1
    ensures Acyclic(tree + [e]) && Within(tree + [e], visited + {e.target}) && EdgesOf(g, tree + [e])
    ensures forall k :: 0 <= k < |tree + [e]| ==> GrownAt(g, start, tree + [e], k)
    ensures forall v :: v in visited + {e.target} ==> Connected(tree + [e], start, v)
  {
    GrowForest(g, tree, visited, e);
    DrawnGrown(g, start, tree, e);
    var tree' := tree + [e];
    forall v | v in visited + {e.target}
      ensures Connected(tree', start, v)
    {
      ConnectedMono(tree, tree', start, e.source);
      if v == e.target {
        ConnectedByEdge(tree', e);
        ConnectedTrans(tree', start, e.source, v);
      } else {
        ConnectedMono(tree, tree', start, v);
      }
    }
  }

  /** The edge-array Prim. With no nodes there is nothing to do.
      Otherwise, starting from the first node, each drawn edge is a
      lightest edge leaving the nodes visited before it, and visits one
      new node; the drawn edges form a forest of graph edges that connects
      the start node to every visited node; and the loop stops with every
      node visited or no edge leaving the visited nodes, which are then
      exactly the drawn edges' targets and the start node. */
  method PrimEdges(g: Graph) returns (r: Option<seq<Edge>>, visited: set<NodeId>)
    requires Valid(g)
    ensures r.None? <==> g.order == []
    ensures r.Some? ==> EdgesOf(g, r.value) && Acyclic(r.value)
    ensures r.Some? ==> forall k :: 0 <= k < |r.value| ==> GrownAt(g, g.order[0], r.value, k)
    ensures r.Some? ==> visited == Visited(g.order[0], r.value) && |visited| == |r.value| + 1
    ensures r.Some? ==> forall v :: v in visited ==> Connected(r.value, g.order[0], v)
    ensures r.Some? ==> Closed(g, visited)
  {
    if |g.order| == 0 {
      return None, {};
    }
    NodeCount(g);
    var start := g.order[0];
    visited := {start};
    var queue := AddEdges(g, start, visited, []);
    EdgesStart(g, start, queue);
    var tree: seq<Edge> := [];
    ConnectedSelf(tree, start);
    while |visited| < |g.order| && |queue| > 0
      invariant visited <= g.adj.Keys && visited == Visited(start, tree) && |visited| == |tree| + 1
      invariant Pending(g, visited, queue, None)
      invariant Acyclic(tree) && Within(tree, visited) && EdgesOf(g, tree)
      invariant forall k :: 0 <= k < |tree| ==> GrownAt(g, start, tree, k)
      invariant forall v :: v in visited ==> Connected(tree, start, v)
      decreases g.adj.Keys - visited, |queue|
    {
      var sorted := SortByWeight(queue);
      forall e
        ensures e in sorted <==> e in queue
      {
        SortedMembers(queue, e);
      }
      var edge := sorted[0];
      if edge.target in visited {
        PendingSkip(g, visited, queue, sorted);
        queue := sorted[1..];
        continue;
      }
      PendingAccept(g, visited, queue, sorted);
      DrawEdge(g, start, tree, visited, edge);
      visited := visited + {edge.target};
      PendingAdd(g, visited, sorted[1..], edge.target);
      queue := AddEdges(g, edge.target, visited, sorted[1..]);
      tree := tree + [edge];
    }
    if |visited| >= |g.order| {
      SubsetCard(visited, g.adj.Keys);
      SubsetFull(visited, g.adj.Keys);
    }
    forall u, v, w | u in visited && HasEdge(g, u, v, w)
      ensures v in visited
    {
      var k :| 0 <= k < |g.adj[u]| && g.adj[u][k] == Adj(v, w);
      assert PendingAt(g, visited, queue, u, k);
    }
    return Some(tree), visited;
  }
}
