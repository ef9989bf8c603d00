/** Dijkstra's search from a start node that stops once the end node is
    taken from the queue, and the path read back along the predecessors
    (`dijkstra` in public/algorithms.js, duplicated in public/index.js). */
module ShortestPaths {
  import opened Common
  import opened Graphs
  import opened PriorityQueues

  // ---------------------------------------------------------------------
  // The state of the search
  // ---------------------------------------------------------------------

  /** Some edge from `u` to `v` has exactly the weight by which the
      distance grows from `u` to `v`: the edge a relaxation followed. */
  ghost predicate Tight(g: Graph, dist: map<NodeId, Dist>, u: NodeId, v: NodeId)
    requires u in dist && v in dist
  {
    exists w :: HasEdge(g, u, v, w) && dist[v] == Add(dist[u], w)
  }

  /** The predecessor of `v`, if any, was taken from the queue before `v`
      (`time` records when each node was taken), and its edge to `v` is
      tight. */
  ghost predicate PrevEdge(g: Graph, dist: map<NodeId, Dist>, prev: map<NodeId, Option<NodeId>>, time: map<NodeId, nat>, v: NodeId)
    requires v in dist && v in prev
  {
    prev[v].Some? ==>
      var u := prev[v].value;
      u in time && u in dist && (v in time ==> time[u] < time[v]) && Tight(g, dist, u, v)
  }

  /** A distance is finite exactly at the start node and at the nodes with
      a predecessor. */
  ghost predicate Reached(source: NodeId, dist: map<NodeId, Dist>, prev: map<NodeId, Option<NodeId>>, v: NodeId)
    requires v in dist && v in prev
  {
    dist[v].Fin? <==> (v == source || prev[v].Some?)
  }

  /** The distances and predecessors form a tree of tight edges rooted at
      the start node, which keeps distance 0 and no predecessor. */
  ghost predicate Tree(g: Graph, source: NodeId, dist: map<NodeId, Dist>, prev: map<NodeId, Option<NodeId>>, time: map<NodeId, nat>)
  {
    && dist.Keys == g.adj.Keys && prev.Keys == g.adj.Keys
    && source in dist && dist[source] == Fin(0) && prev[source] == None
    && (forall v {:trigger Reached(source, dist, prev, v)} :: v in dist ==> Reached(source, dist, prev, v))
    && (forall v {:trigger PrevEdge(g, dist, prev, time, v)} :: v in dist ==> PrevEdge(g, dist, prev, time, v))
    && (forall v :: v in time ==> v in dist && time[v] < |time|)
  }

  /** Two nodes taken from the queue were taken at different steps, the
      earlier one with a distance no greater than the later one. */
  ghost predicate TakenInOrder(dist: map<NodeId, Dist>, time: map<NodeId, nat>, a: NodeId, b: NodeId)
    requires a in time && b in time && a in dist && b in dist
  {
    (a != b ==> time[a] != time[b]) && (time[a] < time[b] ==> Le(dist[a], dist[b]))
  }

  /** The nodes are taken from the queue one at a time, in non-decreasing
      order of distance. */
  ghost predicate Ordered(dist: map<NodeId, Dist>, time: map<NodeId, nat>)
  {
    forall a, b {:trigger TakenInOrder(dist, time, a, b)} ::
      a in time && b in time && a in dist && b in dist ==> TakenInOrder(dist, time, a, b)
  }

  /** A queued node's priority is its distance. */
  ghost predicate Queued(dist: map<NodeId, Dist>, q: map<NodeId, Entry>, n: NodeId)
    requires n in q
  {
    n in dist && q[n].priority == dist[n]
  }

  /** No node taken from the queue is farther than a node still queued. */
  ghost predicate Below(dist: map<NodeId, Dist>, s: NodeId, n: NodeId)
  {
    s in dist && n in dist && Le(dist[s], dist[n])
  }

  /** The queue holds exactly the nodes not yet taken, each with its
      distance as priority, and none of them is nearer than a taken node. */
  ghost predicate Frontier(g: Graph, dist: map<NodeId, Dist>, time: map<NodeId, nat>, q: map<NodeId, Entry>)
  {
    && time.Keys <= g.adj.Keys && q.Keys == g.adj.Keys - time.Keys
    && (forall n {:trigger Queued(dist, q, n)} :: n in q ==> Queued(dist, q, n))
    && (forall s, n {:trigger Below(dist, s, n)} :: s in time && n in q ==> Below(dist, s, n))
  }

  /** `u` is the node taken last. */
  ghost predicate Latest(time: map<NodeId, nat>, u: NodeId)
  {
    u in time && time[u] + 1 == |time|
  }

  // ---------------------------------------------------------------------
  // Walks, their weights, and what the search has settled
  // ---------------------------------------------------------------------

  /** Step `k` of `p` is an edge of weight `ws[k]`. */
  ghost predicate StepOf(g: Graph, p: seq<NodeId>, ws: seq<nat>, k: nat)
    requires k < |ws| && |p| == |ws| + 1
  {
    HasEdge(g, p[k], p[k + 1], ws[k])
  }

  /** `p` is a walk of `g` whose edges have the weights `ws`. */
  ghost predicate WeightedWalk(g: Graph, p: seq<NodeId>, ws: seq<nat>)
  {
    |p| == |ws| + 1 && forall k {:trigger StepOf(g, p, ws, k)} :: 0 <= k < |ws| ==> StepOf(g, p, ws, k)
  }

  /** The sum of the weights `ws`. */
  function Total(ws: seq<nat>): nat
  {
    if ws == [] then 0 else Total(ws[..|ws| - 1]) + ws[|ws| - 1]
  }

  /** `d` is at most the weight of every walk from `source` to `v`; when
      `d` is `Inf` there is no such walk. */
  ghost predicate Shortest(g: Graph, source: NodeId, v: NodeId, d: Dist)
  {
    forall p, ws {:trigger WeightedWalk(g, p, ws)} ::
      WeightedWalk(g, p, ws) && p[0] == source && p[|p| - 1] == v ==> Le(d, Fin(Total(ws)))
  }

  /** The distance of `s` is a shortest distance. */
  ghost predicate SettledAt(g: Graph, source: NodeId, dist: map<NodeId, Dist>, s: NodeId)
  {
    s in dist && Shortest(g, source, s, dist[s])
  }

  /** Every taken node has its shortest distance. */
  ghost predicate Settled(g: Graph, source: NodeId, dist: map<NodeId, Dist>, time: map<NodeId, nat>)
  {
    forall s {:trigger SettledAt(g, source, dist, s)} :: s in time ==> SettledAt(g, source, dist, s)
  }

  /** The adjacency entry `a` of `s` cannot lower the distance of its
      target any further. */
  ghost predicate EdgeRelaxed(dist: map<NodeId, Dist>, s: NodeId, a: Adj)
  {
    s in dist && a.target in dist && Le(dist[a.target], Add(dist[s], a.weight))
  }

  /** The first `j` adjacency entries of `s` are relaxed. */
  ghost predicate RelaxedUpTo(g: Graph, dist: map<NodeId, Dist>, s: NodeId, j: nat)
    requires s in g.adj && j <= |g.adj[s]|
  {
    forall k {:trigger EdgeRelaxed(dist, s, g.adj[s][k])} :: 0 <= k < j ==> EdgeRelaxed(dist, s, g.adj[s][k])
  }

  /** Every adjacency entry of `s` is relaxed. */
  ghost predicate Relaxed(g: Graph, dist: map<NodeId, Dist>, s: NodeId)
  {
    s in g.adj && RelaxedUpTo(g, dist, s, |g.adj[s]|)
  }

  /** Every taken node other than `skip` has all its edges relaxed. */
  ghost predicate RelaxedBut(g: Graph, dist: map<NodeId, Dist>, time: map<NodeId, nat>, skip: Option<NodeId>)
  {
    forall s {:trigger Relaxed(g, dist, s)} :: s in time && skip != Some(s) ==> Relaxed(g, dist, s)
  }

  /** Dropping the last step of a weighted walk. */
  lemma WalkPrefix(g: Graph, p: seq<NodeId>, ws: seq<nat>)
    requires WeightedWalk(g, p, ws) && |ws| > 0
    ensures WeightedWalk(g, p[..|p| - 1], ws[..|ws| - 1])
    ensures HasEdge(g, p[|p| - 2], p[|p| - 1], ws[|ws| - 1])
  {
    var p', ws' := p[..|p| - 1], ws[..|ws| - 1];
    forall k | 0 <= k < |ws'|
      ensures StepOf(g, p', ws', k)
    {
      assert StepOf(g, p, ws, k);
    }
    assert StepOf(g, p, ws, |ws| - 1);
  }

  /** The key step of Dijkstra's algorithm: while every taken node is
      settled and relaxed, every walk from the start node to a node not
      yet taken weighs at least the distance of the nearest queued node
      `u`. */
  lemma {:induction false} WalkBound(g: Graph, source: NodeId, dist: map<NodeId, Dist>, prev: map<NodeId, Option<NodeId>>, time: map<NodeId, nat>, q: map<NodeId, Entry>, u: NodeId, p: seq<NodeId>, ws: seq<nat>)
    requires Valid(g) && Tree(g, source, dist, prev, time) && Frontier(g, dist, time, q)
    requires Settled(g, source, dist, time) && RelaxedBut(g, dist, time, None)
    requires u in q && forall n :: n in q ==> Le(q[u].priority, q[n].priority)
    requires WeightedWalk(g, p, ws) && p[0] == source && p[|p| - 1] !in time
    ensures u in dist && Le(dist[u], Fin(Total(ws)))
    decreases |ws|
  {
    assert Queued(dist, q, u);
    var x := p[|p| - 1];
    if ws == [] {
      assert Queued(dist, q, source);
    } else {
      WalkPrefix(g, p, ws);
      var p', ws', y, w := p[..|p| - 1], ws[..|ws| - 1], p[|p| - 2], ws[|ws| - 1];
      assert x in g.adj && x in q;
      assert Queued(dist, q, x);
      if y in time {
        assert SettledAt(g, source, dist, y) && Relaxed(g, dist, y);
        assert WeightedWalk(g, p', ws') && p'[0] == source && p'[|p'| - 1] == y;
        var k :| 0 <= k < |g.adj[y]| && g.adj[y][k] == Adj(x, w);
        assert EdgeRelaxed(dist, y, g.adj[y][k]);
        LeTrans(dist[u], dist[x], Add(dist[y], w));
      } else {
        WalkBound(g, source, dist, prev, time, q, u, p', ws');
      }
    }
  }

  // ---------------------------------------------------------------------
  // Steps of the main loop (public/algorithms.js:58-96)
  // ---------------------------------------------------------------------

  /** The distances and predecessors right after the initialisation
      (public/algorithms.js:41-48). */
  ghost predicate Initial(g: Graph, source: NodeId, dist: map<NodeId, Dist>, prev: map<NodeId, Option<NodeId>>)
  {
    && dist.Keys == g.adj.Keys && prev.Keys == g.adj.Keys
    && forall n :: n in dist ==> dist[n] == (if n == source then Fin(0) else Inf) && prev[n] == None
  }

  /** At the start only the start node is reached and every node is
      queued. */
  lemma SearchStart(g: Graph, source: NodeId, dist: map<NodeId, Dist>, prev: map<NodeId, Option<NodeId>>, q: map<NodeId, Entry>)
    requires source in g.adj && Initial(g, source, dist, prev)
    requires q.Keys == g.adj.Keys && forall n :: n in q ==> q[n] == Entry(n, dist[n], None)
    ensures Tree(g, source, dist, prev, map[]) && Frontier(g, dist, map[], q) && Ordered(dist, map[])
  {
    forall v | v in dist
      ensures Reached(source, dist, prev, v)
    {
    }
    forall v | v in dist
      ensures PrevEdge(g, dist, prev, map[], v)
    {
    }
    forall n | n in q
      ensures Queued(dist, q, n)
    {
    }
  }

  /** Taking a queued node keeps the tree: its predecessors were all
      taken earlier. */
  lemma TakeTree(g: Graph, source: NodeId, dist: map<NodeId, Dist>, prev: map<NodeId, Option<NodeId>>, time: map<NodeId, nat>, u: NodeId)
    requires Tree(g, source, dist, prev, time) && u in dist && u !in time
    ensures Tree(g, source, dist, prev, time[u := |time|])
  {
    var time' := time[u := |time|];
    forall v | v in dist
      ensures PrevEdge(g, dist, prev, time', v)
    {
      assert PrevEdge(g, dist, prev, time, v);
    }
  }

  /** Taking the nearest queued node `u` leaves the others queued, none of
      them nearer than `u`. */
  lemma TakeFrontier(g: Graph, dist: map<NodeId, Dist>, time: map<NodeId, nat>, q: map<NodeId, Entry>, u: NodeId)
    requires Frontier(g, dist, time, q)
    requires u in q && forall n :: n in q ==> Le(q[u].priority, q[n].priority)
    ensures Frontier(g, dist, time[u := |time|], q - {u})
  {
    var time', q' := time[u := |time|], q - {u};
    assert Queued(dist, q, u);
    assert q'.Keys == g.adj.Keys - time'.Keys;
    forall n | n in q'
      ensures Queued(dist, q', n)
    {
      assert Queued(dist, q, n);
    }
    forall s, n | s in time' && n in q'
      ensures Below(dist, s, n)
    {
      if s == u {
        assert Queued(dist, q, n);
      } else {
        assert Below(dist, s, n);
      }
    }
  }

  /** Taking a node no nearer than every taken node keeps the taken nodes
      in order, the new one last. */
  lemma TakeOrdered(dist: map<NodeId, Dist>, time: map<NodeId, nat>, u: NodeId)
    requires Ordered(dist, time) && u !in time && u in dist
    requires forall s :: s in time ==> Below(dist, s, u)
    requires forall s :: s in time ==> time[s] < |time|
    ensures Ordered(dist, time[u := |time|]) && Latest(time[u := |time|], u)
  {
    var time' := time[u := |time|];
    forall a, b | a in time' && b in time' && a in dist && b in dist
      ensures TakenInOrder(dist, time', a, b)
    {
      if a != u && b != u {
        assert TakenInOrder(dist, time, a, b);
      } else if a != u {
        assert Below(dist, a, u);
      }
    }
  }

  /** Taking the nearest queued node `u` settles it: its distance is a
      shortest distance. */
  lemma TakeSettled(g: Graph, source: NodeId, dist: map<NodeId, Dist>, prev: map<NodeId, Option<NodeId>>, time: map<NodeId, nat>, q: map<NodeId, Entry>, u: NodeId)
    requires Valid(g) && Tree(g, source, dist, prev, time) && Frontier(g, dist, time, q)
    requires Settled(g, source, dist, time) && RelaxedBut(g, dist, time, None)
    requires u in q && forall n :: n in q ==> Le(q[u].priority, q[n].priority)
    ensures Settled(g, source, dist, time[u := |time|]) && RelaxedBut(g, dist, time[u := |time|], Some(u))
  {
    assert u in dist && u !in time;
    forall p, ws | WeightedWalk(g, p, ws) && p[0] == source && p[|p| - 1] == u
      ensures Le(dist[u], Fin(Total(ws)))
    {
      WalkBound(g, source, dist, prev, time, q, u, p, ws);
    }
    assert SettledAt(g, source, dist, u);
    var time' := time[u := |time|];
    forall s | s in time'
      ensures SettledAt(g, source, dist, s)
    {
    }
    forall s | s in time' && Some(u) != Some(s)
      ensures Relaxed(g, dist, s)
    {
    }
  }

  /** Taking the nearest queued node `u`: it was never taken before, and
      it becomes the latest taken node. */
  lemma TakeStep(g: Graph, source: NodeId, dist: map<NodeId, Dist>, prev: map<NodeId, Option<NodeId>>, time: map<NodeId, nat>, q: map<NodeId, Entry>, u: NodeId)
    requires Tree(g, source, dist, prev, time) && Frontier(g, dist, time, q) && Ordered(dist, time)
    requires u in q && forall n :: n in q ==> Le(q[u].priority, q[n].priority)
    ensures u !in time
    ensures Tree(g, source, dist, prev, time[u := |time|])
    ensures Frontier(g, dist, time[u := |time|], q - {u})
    ensures Ordered(dist, time[u := |time|]) && Latest(time[u := |time|], u)
  {
    assert u in dist && u !in time;
    TakeTree(g, source, dist, prev, time, u);
    TakeFrontier(g, dist, time, q, u);
    forall s | s in time
      ensures Below(dist, s, u)
    {
    }
    TakeOrdered(dist, time, u);
  }

  /** Every node taken before the latest one is no farther than it. */
  lemma LatestFarthest(dist: map<NodeId, Dist>, time: map<NodeId, nat>, u: NodeId, s: NodeId)
    requires Ordered(dist, time) && Latest(time, u) && u in dist
    requires s in time && s in dist && time[s] < |time|
    ensures Le(dist[s], dist[u])
  {
    assert TakenInOrder(dist, time, s, u);
  }

  /** An edge from the latest taken node `u` that strictly lowers the
      distance of `v` leads to a node still queued: taken nodes are never
      lowered again. */
  lemma RelaxQueued(g: Graph, source: NodeId, dist: map<NodeId, Dist>, prev: map<NodeId, Option<NodeId>>, time: map<NodeId, nat>, q: map<NodeId, Entry>, u: NodeId, v: NodeId, w: nat)
    requires Tree(g, source, dist, prev, time) && Frontier(g, dist, time, q) && Ordered(dist, time)
    requires Latest(time, u) && v in dist && Less(Add(dist[u], w), dist[v])
    ensures v in q && v !in time && v != u && v != source && Less(Add(dist[u], w), q[v].priority)
  {
    if v in time {
      LatestFarthest(dist, time, u, v);
      LeTrans(dist[v], dist[u], Add(dist[u], w));
      assert false;
    }
    assert Queued(dist, q, v);
  }

  /** Lowering the distance of a queued node `v` through the edge from the
      latest taken node `u` keeps the tree, with `v` now reached through
      `u`. */
  lemma RelaxTree(g: Graph, source: NodeId, dist: map<NodeId, Dist>, prev: map<NodeId, Option<NodeId>>, time: map<NodeId, nat>, u: NodeId, v: NodeId, w: nat)
    requires Tree(g, source, dist, prev, time) && u in time && HasEdge(g, u, v, w)
    requires v in dist && v !in time && v != source && Less(Add(dist[u], w), dist[v])
    ensures Tree(g, source, dist[v := Add(dist[u], w)], prev[v := Some(u)], time)
  {
    var alt := Add(dist[u], w);
    var dist', prev' := dist[v := alt], prev[v := Some(u)];
    forall x | x in dist'
      ensures Reached(source, dist', prev', x)
    {
      if x != v {
        assert Reached(source, dist, prev, x);
      }
    }
    forall x | x in dist'
      ensures PrevEdge(g, dist', prev', time, x)
    {
      if x != v {
        assert PrevEdge(g, dist, prev, time, x);
      } else {
        assert HasEdge(g, u, v, w) && dist'[v] == Add(dist'[u], w);
      }
    }
  }

  /** Lowering the priority of a queued node `v` to a distance reached
      from the latest taken node keeps the queue in step with the
      distances. */
  lemma RelaxFrontier(g: Graph, dist: map<NodeId, Dist>, time: map<NodeId, nat>, q: map<NodeId, Entry>, u: NodeId, v: NodeId, alt: Dist)
    requires Frontier(g, dist, time, q) && Ordered(dist, time) && Latest(time, u) && u in dist
    requires forall s :: s in time ==> s in dist && time[s] < |time|
    requires v in q && v !in time && Le(dist[u], alt)
    ensures Frontier(g, dist[v := alt], time, q[v := Entry(v, alt, None)])
  {
    var dist', q' := dist[v := alt], q[v := Entry(v, alt, None)];
    assert q'.Keys == q.Keys;
    forall n | n in q'
      ensures Queued(dist', q', n)
    {
      if n != v {
        assert Queued(dist, q, n);
      }
    }
    forall s, n | s in time && n in q'
      ensures Below(dist', s, n)
    {
      if n != v {
        assert Below(dist, s, n);
      } else {
        LatestFarthest(dist, time, u, s);
        LeTrans(dist[s], dist[u], alt);
      }
    }
  }

  /** Lowering the distance of a node not yet taken keeps the taken nodes
      in order. */
  lemma RelaxOrdered(dist: map<NodeId, Dist>, time: map<NodeId, nat>, v: NodeId, alt: Dist)
    requires Ordered(dist, time) && v !in time
    ensures Ordered(dist[v := alt], time)
  {
    var dist' := dist[v := alt];
    forall a, b | a in time && b in time && a in dist' && b in dist'
      ensures TakenInOrder(dist', time, a, b)
    {
      assert TakenInOrder(dist, time, a, b);
    }
  }

  /** Lowering the distance of a node not yet taken keeps every taken
      node settled. */
  lemma RelaxSettled(g: Graph, source: NodeId, dist: map<NodeId, Dist>, time: map<NodeId, nat>, v: NodeId, alt: Dist)
    requires Settled(g, source, dist, time) && v !in time
    ensures Settled(g, source, dist[v := alt], time)
  {
    forall s | s in time
      ensures SettledAt(g, source, dist[v := alt], s)
    {
      assert SettledAt(g, source, dist, s);
    }
  }

  /** Lowering the distance of `v` keeps every relaxed entry relaxed,
      except entries of `v` itself. */
  lemma LowerRelaxed(dist: map<NodeId, Dist>, s: NodeId, a: Adj, v: NodeId, alt: Dist)
    requires EdgeRelaxed(dist, s, a) && s != v && v in dist && Le(alt, dist[v])
    ensures EdgeRelaxed(dist[v := alt], s, a)
  {
    if a.target == v {
      LeTrans(alt, dist[v], Add(dist[s], a.weight));
    }
  }

  /** Entry `j` of the latest taken node `u` lowers the distance of its
      target `v`, not yet taken: the entries relaxed so far stay relaxed,
      and entry `j` now is. */
  lemma LoweredRelaxed(g: Graph, dist: map<NodeId, Dist>, time: map<NodeId, nat>, u: NodeId, j: nat)
    requires u in time && u in g.adj && j < |g.adj[u]| && u in dist
    requires g.adj[u][j].target in dist && g.adj[u][j].target !in time
    requires Less(Add(dist[u], g.adj[u][j].weight), dist[g.adj[u][j].target])
    requires RelaxedBut(g, dist, time, Some(u)) && RelaxedUpTo(g, dist, u, j)
    ensures
      var dist' := dist[g.adj[u][j].target := Add(dist[u], g.adj[u][j].weight)];
      RelaxedBut(g, dist', time, Some(u)) && RelaxedUpTo(g, dist', u, j + 1)
  {
    var v, alt := g.adj[u][j].target, Add(dist[u], g.adj[u][j].weight);
    var dist' := dist[v := alt];
    forall s | s in time && Some(u) != Some(s)
      ensures Relaxed(g, dist', s)
    {
      assert Relaxed(g, dist, s);
      forall k | 0 <= k < |g.adj[s]|
        ensures EdgeRelaxed(dist', s, g.adj[s][k])
      {
        assert EdgeRelaxed(dist, s, g.adj[s][k]);
        LowerRelaxed(dist, s, g.adj[s][k], v, alt);
      }
    }
    forall k | 0 <= k < j + 1
      ensures EdgeRelaxed(dist', u, g.adj[u][k])
    {
      if k < j {
        assert EdgeRelaxed(dist, u, g.adj[u][k]);
        LowerRelaxed(dist, u, g.adj[u][k], v, alt);
      }
    }
  }

  /** Entry `j` of the latest taken node `u` does not lower the distance
      of its target: it is already relaxed. */
  lemma KeptRelaxed(g: Graph, dist: map<NodeId, Dist>, u: NodeId, j: nat)
    requires u in g.adj && j < |g.adj[u]| && u in dist && g.adj[u][j].target in dist
    requires !Less(Add(dist[u], g.adj[u][j].weight), dist[g.adj[u][j].target])
    requires RelaxedUpTo(g, dist, u, j)
    ensures RelaxedUpTo(g, dist, u, j + 1)
  {
    assert EdgeRelaxed(dist, u, g.adj[u][j]);
  }

  /** Once every entry of `u` is relaxed, every taken node is. */
  lemma AllRelaxed(g: Graph, dist: map<NodeId, Dist>, time: map<NodeId, nat>, u: NodeId)
    requires u in g.adj && RelaxedBut(g, dist, time, Some(u)) && RelaxedUpTo(g, dist, u, |g.adj[u]|)
    ensures RelaxedBut(g, dist, time, None)
  {
    assert Relaxed(g, dist, u);
  }

  /** Relaxing the edge from the latest taken node `u` to `v` when it
      strictly lowers the distance of `v`: `v` is still queued, and the
      state remains a tree with `v` now reached through `u`. */
  lemma RelaxStep(g: Graph, source: NodeId, dist: map<NodeId, Dist>, prev: map<NodeId, Option<NodeId>>, time: map<NodeId, nat>, q: map<NodeId, Entry>, u: NodeId, v: NodeId, w: nat)
    requires Tree(g, source, dist, prev, time) && Frontier(g, dist, time, q) && Ordered(dist, time)
    requires Latest(time, u) && HasEdge(g, u, v, w)
    requires v in dist && Less(Add(dist[u], w), dist[v])
    ensures v in q && v !in time && Less(Add(dist[u], w), q[v].priority)
    ensures Tree(g, source, dist[v := Add(dist[u], w)], prev[v := Some(u)], time)
    ensures Frontier(g, dist[v := Add(dist[u], w)], time, q[v := Entry(v, Add(dist[u], w), None)])
    ensures Ordered(dist[v := Add(dist[u], w)], time)
  {
    RelaxQueued(g, source, dist, prev, time, q, u, v, w);
    RelaxTree(g, source, dist, prev, time, u, v, w);
    RelaxFrontier(g, dist, time, q, u, v, Add(dist[u], w));
    RelaxOrdered(dist, time, v, Add(dist[u], w));
  }

  // ---------------------------------------------------------------------
  // The search (public/algorithms.js:41-96)
  // ---------------------------------------------------------------------

  /** The distances and predecessors at the start: every node at `Inf`
      with no predecessor, then the start node at 0. */
  method InitDistances(g: Graph, source: NodeId) returns (dist: map<NodeId, Dist>, prev: map<NodeId, Option<NodeId>>)
    requires Valid(g) && source in g.adj
    ensures Initial(g, source, dist, prev)
  {
    dist, prev := map[], map[];
    var i := 0;
    while i < |g.order|
      invariant i <= |g.order|
      invariant forall n :: n in dist <==> n in g.order[..i]
      invariant prev.Keys == dist.Keys
      invariant forall n :: n in dist ==> dist[n] == Inf && prev[n] == None
    {
      assert g.order[..i + 1] == g.order[..i] + [g.order[i]];
      dist, prev := dist[g.order[i] := Inf], prev[g.order[i] := None];
      i := i + 1;
    }
    assert g.order[..i] == g.order;
    assert dist.Keys == g.adj.Keys;
    dist := dist[source := Fin(0)];
  }

  /** A new queue holding every node once, in node order, with its
      distance as priority and no parent. */
  method EnqueueAll(g: Graph, dist: map<NodeId, Dist>) returns (pq: PriorityQueue)
    requires Valid(g) && dist.Keys == g.adj.Keys
    ensures fresh(pq) && pq.Valid() && |pq.heap| == |g.order|
    ensures pq.Contents().Keys == g.adj.Keys
    ensures forall n :: n in pq.Contents() ==> pq.Contents()[n] == Entry(n, dist[n], None)
  {
    pq := new PriorityQueue();
    var i := 0;
    while i < |g.order|
      invariant i <= |g.order| && pq.Valid() && fresh(pq) && |pq.heap| == i
      invariant forall n :: n in pq.Contents() <==> n in g.order[..i]
      invariant forall n :: n in pq.Contents() ==> n in dist && pq.Contents()[n] == Entry(n, dist[n], None)
    {
      assert g.order[..i + 1] == g.order[..i] + [g.order[i]];
      assert g.order[i] !in g.order[..i];
      pq.Enqueue(g.order[i], dist[g.order[i]], None);
      i := i + 1;
    }
    assert g.order[..i] == g.order;
  }

  /** The main loop: take the nearest queued node, stop if it is the end
      node, otherwise relax its edges. The end node is the last node
      taken and has its shortest distance; every node is taken at most
      once and in non-decreasing order of distance; and the distances and
      predecessors form a tree of tight edges from the start node. */
  method SearchFrom(g: Graph, source: NodeId, target: NodeId) returns (dist: map<NodeId, Dist>, prev: map<NodeId, Option<NodeId>>, ghost time: map<NodeId, nat>)
    requires Valid(g) && source in g.adj && target in g.adj
    ensures Tree(g, source, dist, prev, time) && Ordered(dist, time)
    ensures Latest(time, target) && Shortest(g, source, target, dist[target])
  {
    dist, prev := InitDistances(g, source);
    var pq := EnqueueAll(g, dist);
    time := map[];
    SearchStart(g, source, dist, prev, pq.Contents());
    while !pq.IsEmpty()
      invariant pq.Valid()
      invariant Tree(g, source, dist, prev, time) && Frontier(g, dist, time, pq.Contents()) && Ordered(dist, time)
      invariant Settled(g, source, dist, time) && RelaxedBut(g, dist, time, None)
      invariant target !in time
      decreases |pq.Contents().Keys|
    {
      ghost var q := pq.Contents();
      var r := pq.Dequeue();
      var u := r.value.node;
      TakeStep(g, source, dist, prev, time, q, u);
      TakeSettled(g, source, dist, prev, time, q, u);
      time := time[u := |time|];
      if u == target {
        assert SettledAt(g, source, dist, u);
        break;
      }
      dist, prev := RelaxEdges(g, source, pq, dist, prev, time, u);
    }
  }

  /** Every entry either keeps its distance and predecessor, or gets a
      strictly smaller distance with `u` as its predecessor. */
  ghost predicate LoweredVia(dist: map<NodeId, Dist>, prev: map<NodeId, Option<NodeId>>,
                             dist': map<NodeId, Dist>, prev': map<NodeId, Option<NodeId>>, u: NodeId)
  {
    forall x :: x in dist && x in prev ==>
      && x in dist' && x in prev'
      && ((dist'[x] == dist[x] && prev'[x] == prev[x]) || (Less(dist'[x], dist[x]) && prev'[x] == Some(u)))
  }

  /** Lowering the distance of `v` with `u` as its new predecessor keeps
      every entry either unchanged or lowered via `u`. */
  lemma LowerVia(dist: map<NodeId, Dist>, prev: map<NodeId, Option<NodeId>>,
                 dist': map<NodeId, Dist>, prev': map<NodeId, Option<NodeId>>, u: NodeId, v: NodeId, alt: Dist)
    requires LoweredVia(dist, prev, dist', prev', u) && v in dist' && Less(alt, dist'[v])
    ensures LoweredVia(dist, prev, dist'[v := alt], prev'[v := Some(u)], u)
  {
  }

  /** Relaxing every edge of the latest taken node `u`
      (public/algorithms.js:75-82): an edge that strictly lowers the
      distance of its target sets the target's distance, predecessor and
      queue priority. Afterwards every taken node is relaxed. */
  method RelaxEdges(g: Graph, source: NodeId, pq: PriorityQueue, dist: map<NodeId, Dist>, prev: map<NodeId, Option<NodeId>>, ghost time: map<NodeId, nat>, u: NodeId)
    returns (dist': map<NodeId, Dist>, prev': map<NodeId, Option<NodeId>>)
    requires Valid(g) && pq.Valid() && Latest(time, u)
    requires Tree(g, source, dist, prev, time) && Frontier(g, dist, time, pq.Contents()) && Ordered(dist, time)
    requires Settled(g, source, dist, time) && RelaxedBut(g, dist, time, Some(u))
    modifies pq
    ensures pq.Valid() && pq.Contents().Keys == old(pq.Contents()).Keys
    ensures Tree(g, source, dist', prev', time) && Frontier(g, dist', time, pq.Contents()) && Ordered(dist', time)
    ensures Settled(g, source, dist', time) && RelaxedBut(g, dist', time, None)
    ensures LoweredVia(dist, prev, dist', prev', u)
  {
    dist', prev' := dist, prev;
    assert u in g.adj;
    var adj := g.adj[u];
    var j := 0;
    while j < |adj|
      invariant pq.Valid() && j <= |adj| && pq.Contents().Keys == old(pq.Contents()).Keys
      invariant Tree(g, source, dist', prev', time) && Frontier(g, dist', time, pq.Contents()) && Ordered(dist', time)
      invariant Settled(g, source, dist', time) && RelaxedBut(g, dist', time, Some(u)) && RelaxedUpTo(g, dist', u, j)
      invariant LoweredVia(dist, prev, dist', prev', u)
    {
      var v, weight := adj[j].target, adj[j].weight;
      assert HasEdge(g, u, v, weight) && v in dist';
      var alt := Add(dist'[u], weight);
      if Less(alt, dist'[v]) {
        RelaxStep(g, source, dist', prev', time, pq.Contents(), u, v, weight);
        RelaxSettled(g, source, dist', time, v, alt);
        LoweredRelaxed(g, dist', time, u, j);
        LowerVia(dist, prev, dist', prev', u, v, alt);
        dist', prev' := dist'[v := alt], prev'[v := Some(u)];
        pq.Enqueue(v, alt, None);
      } else {
        KeptRelaxed(g, dist', u, j);
      }
      j := j + 1;
    }
    AllRelaxed(g, dist', time, u);
  }

  // ---------------------------------------------------------------------
  // Reading the path back (public/algorithms.js:99-109)
  // ---------------------------------------------------------------------

  /** Consecutive nodes `k` and `k + 1` of `p` are joined by a tight edge. */
  ghost predicate TightAt(g: Graph, dist: map<NodeId, Dist>, p: seq<NodeId>, k: nat)
    requires k + 1 < |p|
  {
    p[k] in dist && p[k + 1] in dist && Tight(g, dist, p[k], p[k + 1])
  }

  /** `p` goes from `source` to `target` along tight edges: a shortest-path
      tree path whose distances grow by exactly each edge's weight. */
  ghost predicate TreePath(g: Graph, dist: map<NodeId, Dist>, source: NodeId, target: NodeId, p: seq<NodeId>)
  {
    && |p| > 0 && p[0] == source && p[|p| - 1] == target
    && forall k {:trigger TightAt(g, dist, p, k)} :: 0 <= k < |p| - 1 ==> TightAt(g, dist, p, k)
  }

  /** Putting a tight predecessor in front of a tight path. */
  lemma PrependTight(g: Graph, dist: map<NodeId, Dist>, x: NodeId, p: seq<NodeId>)
    requires p != [] && x in dist && p[0] in dist && Tight(g, dist, x, p[0])
    requires forall k {:trigger TightAt(g, dist, p, k)} :: 0 <= k < |p| - 1 ==> TightAt(g, dist, p, k)
    ensures forall k {:trigger TightAt(g, dist, [x] + p, k)} :: 0 <= k < |[x] + p| - 1 ==> TightAt(g, dist, [x] + p, k)
  {
    var p' := [x] + p;
    forall k | 0 <= k < |p'| - 1
      ensures TightAt(g, dist, p', k)
    {
      if k > 0 {
        assert TightAt(g, dist, p, k - 1);
        assert p'[k] == p[k - 1] && p'[k + 1] == p[k];
      }
    }
  }

  /** A tight path is a walk whose weights add up to the growth of the
      distance along it; the weights are returned. */
  lemma {:induction false} TightWalk(g: Graph, dist: map<NodeId, Dist>, p: seq<NodeId>) returns (ws: seq<nat>)
    requires p != [] && forall k {:trigger TightAt(g, dist, p, k)} :: 0 <= k < |p| - 1 ==> TightAt(g, dist, p, k)
    requires p[0] in dist
    ensures WeightedWalk(g, p, ws)
    ensures p[|p| - 1] in dist && dist[p[|p| - 1]] == Add(dist[p[0]], Total(ws))
    decreases |p|
  {
    if |p| == 1 {
      ws := [];
      assert Add(dist[p[0]], 0) == dist[p[0]];
    } else {
      var p' := p[..|p| - 1];
      forall k | 0 <= k < |p'| - 1
        ensures TightAt(g, dist, p', k)
      {
        assert TightAt(g, dist, p, k);
      }
      var ws' := TightWalk(g, dist, p');
      assert TightAt(g, dist, p, |p| - 2);
      var w :| HasEdge(g, p[|p| - 2], p[|p| - 1], w) && dist[p[|p| - 1]] == Add(dist[p[|p| - 2]], w);
      ws := ws' + [w];
      assert ws[..|ws| - 1] == ws';
      forall k | 0 <= k < |ws|
        ensures StepOf(g, p, ws, k)
      {
        if k < |ws'| {
          assert StepOf(g, p', ws', k);
        }
      }
    }
  }

  /** What the predecessor walk decreases: the step at which the node was
      taken, or one more than every step for a node never taken. */
  ghost function Rank(time: map<NodeId, nat>, u: Option<NodeId>): nat
  {
    if u.None? then 0 else if u.value in time then time[u.value] + 1 else |time| + 1
  }

  /** The path is read only when the end node is the start node or has a
      predecessor; it then runs from the start node to the end node along
      tight edges, and otherwise there is no path. */
  method ReconstructPath(g: Graph, source: NodeId, target: NodeId, dist: map<NodeId, Dist>, prev: map<NodeId, Option<NodeId>>, ghost time: map<NodeId, nat>)
    returns (path: Option<seq<NodeId>>)
    requires Tree(g, source, dist, prev, time) && target in dist
    ensures path.Some? <==> (prev[target].Some? || target == source)
    ensures path.Some? <==> dist[target].Fin?
    ensures path.Some? ==> TreePath(g, dist, source, target, path.value)
  {
    assert Reached(source, dist, prev, target);
    if !(prev[target].Some? || target == source) {
      return None;
    }
    var p: seq<NodeId> := [];
    var u: Option<NodeId> := Some(target);
    while u.Some?
      invariant u.Some? ==> u.value in dist && dist[u.value].Fin?
      invariant p == [] ==> u == Some(target)
      invariant p != [] ==> p[|p| - 1] == target && p[0] in dist && prev[p[0]] == u && dist[p[0]].Fin?
      invariant forall k {:trigger TightAt(g, dist, p, k)} :: 0 <= k < |p| - 1 ==> TightAt(g, dist, p, k)
      decreases Rank(time, u)
    {
      var x := u.value;
      if p != [] {
        assert PrevEdge(g, dist, prev, time, p[0]);
        PrependTight(g, dist, x, p);
      }
      assert PrevEdge(g, dist, prev, time, x);
      p := [x] + p;
      u := prev[x];
    }
    assert Reached(source, dist, prev, p[0]);
    return Some(p);
  }

  /** The outcome of a search: the distances, the predecessors and the
      path to the end node if there is one. */
  datatype Search = Search(dist: map<NodeId, Dist>, prev: map<NodeId, Option<NodeId>>, path: Option<seq<NodeId>>)

  /** Dijkstra's algorithm between two node ids: an unknown id is
      rejected; otherwise the search runs until the end node is taken and
      the path is read back. */
  method Dijkstra(g: Graph, source: NodeId, target: NodeId) returns (r: Result<Search>)
    requires Valid(g)
    ensures r.UnknownNode? <==> source !in g.adj || target !in g.adj
    ensures r.UnknownNode? ==> r.id == if source !in g.adj then source else target
    ensures r.Ok? ==> r.value.dist.Keys == g.adj.Keys && r.value.prev.Keys == g.adj.Keys
    ensures r.Ok? ==> r.value.dist[source] == Fin(0) && r.value.prev[source] == None
    ensures r.Ok? ==> (r.value.path.Some? <==> r.value.dist[target].Fin?)
    ensures r.Ok? && r.value.path.Some? ==> TreePath(g, r.value.dist, source, target, r.value.path.value)
    ensures r.Ok? ==> Shortest(g, source, target, r.value.dist[target])
    ensures r.Ok? && r.value.path.Some? ==>
      exists ws :: WeightedWalk(g, r.value.path.value, ws) && r.value.dist[target] == Fin(Total(ws))
    ensures r.Ok? && r.value.path.None? ==>
      forall p, ws {:trigger WeightedWalk(g, p, ws)} :: WeightedWalk(g, p, ws) && p[0] == source ==> p[|p| - 1] != target
  {
    if source !in g.adj {
      return UnknownNode(source);
    }
    if target !in g.adj {
      return UnknownNode(target);
    }
    var dist, prev, time := SearchFrom(g, source, target);
    var path := ReconstructPath(g, source, target, dist, prev, time);
    if path.Some? {
      var ws := TightWalk(g, dist, path.value);
    }
    return Ok(Search(dist, prev, path));
  }
}
