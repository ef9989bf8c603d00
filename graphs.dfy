/** The weighted undirected graph the algorithms read, how the loader builds
    it from a node list and an edge list (public/index.js, `loadNodes`), and
    the walks and forests used to state what the spanning-tree algorithms
    produce. */
module Graphs {
  import opened Common

  /** One entry of a node's adjacency list: the node at the other end of an
      edge and the edge's weight. */
  datatype Adj = Adj(target: NodeId, weight: nat)

  /** An edge as the loader reads it, or as a spanning-tree algorithm emits it. */
  datatype Edge = Edge(source: NodeId, target: NodeId, weight: nat)

  /** The loaded graph: its node ids in the order the `nodes` object
      enumerates them, and every node's adjacency list. */
  datatype Graph = Graph(order: seq<NodeId>, adj: map<NodeId, seq<Adj>>)

  /** What the loader guarantees and the algorithms rely on: every node is
      listed once, and every adjacency entry names a node of the graph. */
  ghost predicate Valid(g: Graph)
  {
    && Distinct(g.order)
    && (forall n :: n in g.adj <==> n in g.order)
    && (forall n, a :: n in g.adj && a in g.adj[n] ==> a.target in g.adj)
  }

  /** `v` with weight `w` is on `u`'s adjacency list. */
  ghost predicate HasEdge(g: Graph, u: NodeId, v: NodeId, w: nat)
  {
    u in g.adj && Adj(v, w) in g.adj[u]
  }

  /** Every adjacency entry is matched by the reverse entry, with the same weight. */
  ghost predicate Symmetric(g: Graph)
  {
    forall n, a :: n in g.adj && a in g.adj[n] ==> HasEdge(g, a.target, n, a.weight)
  }

  /** A valid graph lists exactly as many nodes as it has. */
  lemma NodeCount(g: Graph)
    requires Valid(g)
    ensures |g.adj.Keys| == |g.order|
  {
    DistinctCard(g.order);
    assert g.adj.Keys == Elems(g.order);
  }

  // ---------------------------------------------------------------------
  // Building the graph (public/index.js:20-44)
  // ---------------------------------------------------------------------

  /** The node ids in order of first occurrence: assigning `nodes[id]` again
      for a repeated id keeps the key where it first appeared. */
  function Dedup(s: seq<NodeId>): (r: seq<NodeId>)
    ensures Distinct(r)
    ensures forall x :: x in r <==> x in s
  {
    if s == [] then []
    else
      var d := Dedup(s[..|s| - 1]);
      if s[|s| - 1] in d then d else d + [s[|s| - 1]]
  }

  /** What one edge `(s, t, w)` pushes onto the adjacency list of `n`:
      `(t, w)` if `n` is `s`, then `(s, w)` if `n` is `t`. */
  function Pushes(e: Edge, n: NodeId): seq<Adj>
  {
    (if e.source == n then [Adj(e.target, e.weight)] else [])
    + (if e.target == n then [Adj(e.source, e.weight)] else [])
  }

  /** The adjacency list of `n` after all of `edges` have been pushed in order. */
  function Incident(edges: seq<Edge>, n: NodeId): seq<Adj>
  {
    if edges == [] then []
    else Incident(edges[..|edges| - 1], n) + Pushes(edges[|edges| - 1], n)
  }

  /** The nodes of `s` that keep a non-empty adjacency list, in order. */
  function Prune(s: seq<NodeId>, edges: seq<Edge>): (r: seq<NodeId>)
    ensures forall x :: x in r <==> x in s && Incident(edges, x) != []
    ensures Distinct(s) ==> Distinct(r)
  {
    if s == [] then []
    else
      var p := Prune(s[..|s| - 1], edges);
      assert Distinct(s) ==> Distinct(s[..|s| - 1]);
      if Incident(edges, s[|s| - 1]) != [] then p + [s[|s| - 1]] else p
  }

  /** One more edge adds its pushes at the end of each list. */
  lemma IncidentSnoc(edges: seq<Edge>, k: nat, n: NodeId)
    requires k < |edges|
    ensures Incident(edges[..k + 1], n) == Incident(edges[..k], n) + Pushes(edges[k], n)
  {
    assert edges[..k + 1][..k] == edges[..k];
  }

  /** One more node is kept at the end if its list is non-empty. */
  lemma PruneSnoc(s: seq<NodeId>, i: nat, edges: seq<Edge>)
    requires i < |s|
    ensures Prune(s[..i + 1], edges)
      == Prune(s[..i], edges) + (if Incident(edges, s[i]) != [] then [s[i]] else [])
  {
    assert s[..i + 1][..i] == s[..i];
  }

  /** The graph that loading `nodeIds` and `edges` produces. */
  function Loaded(nodeIds: seq<NodeId>, edges: seq<Edge>): Graph
  {
    var order := Prune(Dedup(nodeIds), edges);
    Graph(order, map n | n in order :: Incident(edges, n))
  }

  /** Both ends of every edge are loaded nodes. */
  ghost predicate EndpointsKnown(nodeIds: seq<NodeId>, edges: seq<Edge>)
  {
    forall k :: 0 <= k < |edges| ==> edges[k].source in nodeIds && edges[k].target in nodeIds
  }

  /** Each edge is on both of its endpoints' adjacency lists, with its weight. */
  lemma {:induction false} IncidentHasBothEnds(edges: seq<Edge>, k: nat)
    requires k < |edges|
    ensures Adj(edges[k].target, edges[k].weight) in Incident(edges, edges[k].source)
    ensures Adj(edges[k].source, edges[k].weight) in Incident(edges, edges[k].target)
  {
    var last := |edges| - 1;
    var prefix := edges[..last];
    if k < last {
      assert prefix[k] == edges[k];
      IncidentHasBothEnds(prefix, k);
    }
  }

  /** An adjacency entry of `n` is matched by the entry for `n` on the
      other node's list. */
  lemma {:induction false} IncidentSymmetric(edges: seq<Edge>, n: NodeId, a: Adj)
    requires a in Incident(edges, n)
    ensures Adj(n, a.weight) in Incident(edges, a.target)
  {
    var last := |edges| - 1;
    var prefix := edges[..last];
    if a in Incident(prefix, n) {
      IncidentSymmetric(prefix, n, a);
    }
  }

  /** An adjacency entry names an endpoint of some edge. */
  lemma {:induction false} IncidentTargetKnown(nodeIds: seq<NodeId>, edges: seq<Edge>, n: NodeId, a: Adj)
    requires EndpointsKnown(nodeIds, edges)
    requires a in Incident(edges, n)
    ensures a.target in nodeIds
  {
    var last := |edges| - 1;
    var prefix := edges[..last];
    if a in Incident(prefix, n) {
      assert EndpointsKnown(nodeIds, prefix) by {
        forall k | 0 <= k < |prefix| ensures prefix[k].source in nodeIds && prefix[k].target in nodeIds {
          assert prefix[k] == edges[k];
        }
      }
      IncidentTargetKnown(nodeIds, prefix, n, a);
    } else {
      assert edges[last].source in nodeIds && edges[last].target in nodeIds;
    }
  }

  /** Loading makes a valid, symmetric graph in which every edge appears in
      both directions and no node is left with an empty adjacency list. */
  lemma LoadedProperties(nodeIds: seq<NodeId>, edges: seq<Edge>)
    requires EndpointsKnown(nodeIds, edges)
    ensures Valid(Loaded(nodeIds, edges))
    ensures Symmetric(Loaded(nodeIds, edges))
    ensures forall n :: n in Loaded(nodeIds, edges).adj ==> Loaded(nodeIds, edges).adj[n] != []
    ensures forall k :: 0 <= k < |edges| ==>
      && HasEdge(Loaded(nodeIds, edges), edges[k].source, edges[k].target, edges[k].weight)
      && HasEdge(Loaded(nodeIds, edges), edges[k].target, edges[k].source, edges[k].weight)
  {
    var g := Loaded(nodeIds, edges);
    forall n, a | n in g.adj && a in g.adj[n]
      ensures a.target in g.adj && HasEdge(g, a.target, n, a.weight)
    {
      IncidentSymmetric(edges, n, a);
      IncidentTargetKnown(nodeIds, edges, n, a);
    }
    forall k | 0 <= k < |edges|
      ensures HasEdge(g, edges[k].source, edges[k].target, edges[k].weight)
      ensures HasEdge(g, edges[k].target, edges[k].source, edges[k].weight)
    {
      IncidentHasBothEnds(edges, k);
    }
  }

  /** Registers the node ids with empty adjacency lists
      (public/index.js:20-25). */
  method RegisterNodes(nodeIds: seq<NodeId>) returns (order: seq<NodeId>, adj: map<NodeId, seq<Adj>>)
    ensures order == Dedup(nodeIds)
    ensures forall n :: n in adj <==> n in nodeIds
    ensures forall n :: n in adj ==> adj[n] == []
  {
    order, adj := [], map[];
    for i := 0 to |nodeIds|
      invariant order == Dedup(nodeIds[..i])
      invariant forall n :: n in adj <==> n in order
      invariant forall n :: n in adj ==> adj[n] == []
    {
      var id := nodeIds[i];
      assert nodeIds[..i + 1][..i] == nodeIds[..i];
      if id !in adj {
        order := order + [id];
      }
      adj := adj[id := []];
    }
    assert nodeIds[..|nodeIds|] == nodeIds;
  }

  /** Every list of `adj` is what `edges` push onto it. */
  ghost predicate AdjMatches(adj: map<NodeId, seq<Adj>>, edges: seq<Edge>)
  {
    forall n :: n in adj ==> adj[n] == Incident(edges, n)
  }

  /** Pushing one more edge onto both endpoints' lists keeps the lists
      matching the edges pushed so far. */
  lemma PushStep(edges: seq<Edge>, k: nat, before: map<NodeId, seq<Adj>>, after: map<NodeId, seq<Adj>>)
    requires k < |edges|
    requires AdjMatches(before, edges[..k])
    requires edges[k].source in before && edges[k].target in before
    requires after == (var e := edges[k];
                       var mid := before[e.source := before[e.source] + [Adj(e.target, e.weight)]];
                       mid[e.target := mid[e.target] + [Adj(e.source, e.weight)]])
    ensures after.Keys == before.Keys
    ensures AdjMatches(after, edges[..k + 1])
  {
    forall n | n in after
      ensures after[n] == Incident(edges[..k + 1], n)
    {
      IncidentSnoc(edges, k, n);
      assert after[n] == before[n] + Pushes(edges[k], n);
    }
  }

  /** Edge `k` is the first edge with an unregistered end and `id` is the
      end that fails: its source when that is unknown, else its target. */
  ghost predicate FirstUnknownEnd(known: set<NodeId>, edges: seq<Edge>, k: nat, id: NodeId)
  {
    && k < |edges|
    && (forall j :: 0 <= j < k ==> edges[j].source in known && edges[j].target in known)
    && id == (if edges[k].source in known then edges[k].target else edges[k].source)
    && id !in known
  }

  /** Pushes every edge onto both endpoints' adjacency lists
      (public/index.js:29-37); an endpoint that was never registered makes
      the JavaScript throw, reported here as `UnknownNode`. */
  method PushEdges(edges: seq<Edge>, empty: map<NodeId, seq<Adj>>)
    returns (r: Result<map<NodeId, seq<Adj>>>)
    requires forall n :: n in empty ==> empty[n] == []
    ensures r.Ok? <==> forall k :: 0 <= k < |edges| ==> edges[k].source in empty && edges[k].target in empty
    ensures r.UnknownNode? ==> exists k :: FirstUnknownEnd(empty.Keys, edges, k, r.id)
    ensures r.Ok? ==> r.value.Keys == empty.Keys
    ensures r.Ok? ==> AdjMatches(r.value, edges)
  {
    var adj := empty;
    for k := 0 to |edges|
      invariant adj.Keys == empty.Keys
      invariant AdjMatches(adj, edges[..k])
      invariant forall j :: 0 <= j < k ==> edges[j].source in empty && edges[j].target in empty
    {
      var e := edges[k];
      if e.source !in adj {
        assert FirstUnknownEnd(empty.Keys, edges, k, e.source);
        return UnknownNode(e.source);
      }
      ghost var before := adj;
      assert before.Keys == empty.Keys;
      adj := adj[e.source := adj[e.source] + [Adj(e.target, e.weight)]];
      if e.target !in adj {
        assert FirstUnknownEnd(empty.Keys, edges, k, e.target);
        return UnknownNode(e.target);
      }
      adj := adj[e.target := adj[e.target] + [Adj(e.source, e.weight)]];
      PushStep(edges, k, before, adj);
    }
    assert edges[..|edges|] == edges;
    r := Ok(adj);
  }

  /** After the first `i` nodes of `order` were examined, `pruned` holds
      the nodes of `order` except the examined ones whose list was empty,
      each with its list from `adj`. */
  ghost predicate PrunedUpTo(pruned: map<NodeId, seq<Adj>>, adj: map<NodeId, seq<Adj>>, order: seq<NodeId>, i: nat)
    requires i <= |order|
  {
    && (forall n :: n in pruned <==> n in order && (n in order[..i] ==> n in adj && adj[n] != []))
    && (forall n :: n in pruned ==> n in adj && pruned[n] == adj[n])
  }

  /** Examining one more node keeps `PrunedUpTo`. */
  lemma PruneStep(pruned: map<NodeId, seq<Adj>>, adj: map<NodeId, seq<Adj>>, order: seq<NodeId>, i: nat)
    requires i < |order| && order[i] in adj
    requires PrunedUpTo(pruned, adj, order, i)
    ensures PrunedUpTo(if adj[order[i]] == [] then pruned - {order[i]} else pruned, adj, order, i + 1)
  {
    assert forall m :: m in order[..i + 1] <==> m in order[..i] || m == order[i];
  }

  /** Deletes the nodes whose adjacency list stayed empty
      (public/index.js:40-44). */
  method PruneEmpty(order: seq<NodeId>, adj: map<NodeId, seq<Adj>>, ghost edges: seq<Edge>)
    returns (g: Graph)
    requires forall n :: n in adj <==> n in order
    requires AdjMatches(adj, edges)
    ensures g.order == Prune(order, edges)
    ensures g.adj == map n | n in g.order :: Incident(edges, n)
  {
    var kept: seq<NodeId> := [];
    var pruned := adj;
    for i := 0 to |order|
      invariant kept == Prune(order[..i], edges)
      invariant PrunedUpTo(pruned, adj, order, i)
    {
      var n := order[i];
      PruneSnoc(order, i, edges);
      PruneStep(pruned, adj, order, i);
      if adj[n] == [] {
        pruned := pruned - {n};
      } else {
        kept := kept + [n];
      }
    }
    assert order[..|order|] == order;
    assert forall n :: n in pruned <==> n in kept;
    g := Graph(kept, pruned);
  }

  /** An end unknown to the registered map is unknown to the node ids. */
  lemma UnknownEndOfNodes(nodeIds: seq<NodeId>, empty: map<NodeId, seq<Adj>>, edges: seq<Edge>, id: NodeId)
    requires forall n :: n in empty <==> n in nodeIds
    requires exists k :: FirstUnknownEnd(empty.Keys, edges, k, id)
    ensures exists k :: FirstUnknownEnd(Elems(nodeIds), edges, k, id)
  {
    assert empty.Keys == Elems(nodeIds);
  }

  /** The loader, `loadNodes`, with the XML extraction taken out: it
      registers the node ids, pushes every edge onto both endpoints'
      adjacency lists, and deletes the nodes left without edges. */
  method LoadGraph(nodeIds: seq<NodeId>, edges: seq<Edge>) returns (r: Result<Graph>)
    ensures r.Ok? <==> EndpointsKnown(nodeIds, edges)
    ensures r.UnknownNode? ==> exists k :: FirstUnknownEnd(Elems(nodeIds), edges, k, r.id)
    ensures r.Ok? ==> r.value == Loaded(nodeIds, edges)
  {
    var order, empty := RegisterNodes(nodeIds);
    var pushed := PushEdges(edges, empty);
    if pushed.UnknownNode? {
      UnknownEndOfNodes(nodeIds, empty, edges, pushed.id);
      assert !EndpointsKnown(nodeIds, edges);
      return UnknownNode(pushed.id);
    }
    var g := PruneEmpty(order, pushed.value, edges);
    assert g == Loaded(nodeIds, edges);
    r := Ok(g);
  }

  // ---------------------------------------------------------------------
  // Walks and forests over an edge list
  // ---------------------------------------------------------------------

  /** Edge `e`, taken in either direction, joins `x` and `y`. */
  ghost predicate Joins(e: Edge, x: NodeId, y: NodeId)
  {
    (e.source == x && e.target == y) || (e.source == y && e.target == x)
  }

  /** Some edge of `es` joins `x` and `y`. */
  ghost predicate Linked(es: seq<Edge>, x: NodeId, y: NodeId)
  {
    exists e :: e in es && Joins(e, x, y)
  }

  /** `p` is a non-empty walk whose consecutive nodes are joined by edges of `es`. */
  ghost predicate IsWalk(es: seq<Edge>, p: seq<NodeId>)
  {
    |p| > 0 && forall i :: 0 <= i < |p| - 1 ==> Linked(es, p[i], p[i + 1])
  }

  /** The edges `es` connect `x` to `y`. */
  ghost predicate Connected(es: seq<Edge>, x: NodeId, y: NodeId)
  {
    exists p :: IsWalk(es, p) && p[0] == x && p[|p| - 1] == y
  }

  /** Every edge joins two nodes that the edges before it left unconnected,
      so the edges form a forest: no cycle, no self-loop, no parallel edge. */
  ghost predicate Acyclic(es: seq<Edge>)
  {
    forall k :: 0 <= k < |es| ==> !Connected(es[..k], es[k].source, es[k].target)
  }

  /** An edge between two nodes that a forest leaves unconnected keeps it
      a forest. */
  lemma AcyclicSnoc(es: seq<Edge>, e: Edge)
    requires Acyclic(es) && !Connected(es, e.source, e.target)
    ensures Acyclic(es + [e])
  {
    var es' := es + [e];
    forall k | 0 <= k < |es'|
      ensures !Connected(es'[..k], es'[k].source, es'[k].target)
    {
      if k < |es| {
        assert es'[..k] == es[..k];
      } else {
        assert es'[..k] == es;
      }
    }
  }

  /** An edge connects its two endpoints, both ways. */
  lemma ConnectedByEdge(es: seq<Edge>, e: Edge)
    requires e in es
    ensures Connected(es, e.source, e.target) && Connected(es, e.target, e.source)
  {
    var p := [e.source, e.target];
    assert Joins(e, p[0], p[1]);
    assert IsWalk(es, p);
    var q := [e.target, e.source];
    assert Joins(e, q[0], q[1]);
    assert IsWalk(es, q);
  }

  /** Every node is connected to itself. */
  lemma ConnectedSelf(es: seq<Edge>, x: NodeId)
    ensures Connected(es, x, x)
  {
    assert IsWalk(es, [x]);
  }

  /** Walks can be chained. */
  lemma ConnectedTrans(es: seq<Edge>, x: NodeId, y: NodeId, z: NodeId)
    requires Connected(es, x, y) && Connected(es, y, z)
    ensures Connected(es, x, z)
  {
    var p :| IsWalk(es, p) && p[0] == x && p[|p| - 1] == y;
    var q :| IsWalk(es, q) && q[0] == y && q[|q| - 1] == z;
    var r := p + q[1..];
    forall i | 0 <= i < |r| - 1
      ensures Linked(es, r[i], r[i + 1])
    {
      if i < |p| - 1 {
        assert r[i] == p[i] && r[i + 1] == p[i + 1];
      } else {
        var j := i - (|p| - 1);
        assert r[i] == q[j] && r[i + 1] == q[j + 1];
      }
    }
    assert IsWalk(es, r);
  }

  /** Walks can be reversed. */
  lemma ConnectedSym(es: seq<Edge>, x: NodeId, y: NodeId)
    requires Connected(es, x, y)
    ensures Connected(es, y, x)
  {
    var p :| IsWalk(es, p) && p[0] == x && p[|p| - 1] == y;
    var n := |p|;
    var r := seq(n, i requires 0 <= i < n => p[n - 1 - i]);
    forall i | 0 <= i < n - 1
      ensures Linked(es, r[i], r[i + 1])
    {
      var j := n - 2 - i;
      assert r[i] == p[j + 1] && r[i + 1] == p[j];
      var e :| e in es && Joins(e, p[j], p[j + 1]);
      assert Joins(e, r[i], r[i + 1]);
    }
    assert IsWalk(es, r);
  }

  /** More edges connect at least as much. */
  lemma ConnectedMono(es: seq<Edge>, more: seq<Edge>, x: NodeId, y: NodeId)
    requires Connected(es, x, y)
    requires forall e :: e in es ==> e in more
    ensures Connected(more, x, y)
  {
    var p :| IsWalk(es, p) && p[0] == x && p[|p| - 1] == y;
    forall i | 0 <= i < |p| - 1
      ensures Linked(more, p[i], p[i + 1])
    {
      assert Linked(es, p[i], p[i + 1]);
      var e :| e in es && Joins(e, p[i], p[i + 1]);
      assert e in more;
    }
    assert IsWalk(more, p);
  }

  /** A node that no edge touches is connected to no other node. */
  lemma UntouchedNotConnected(es: seq<Edge>, s: NodeId, t: NodeId)
    requires s != t
    requires forall e :: e in es ==> e.source != t && e.target != t
    ensures !Connected(es, s, t)
  {
    forall p | IsWalk(es, p) && p[0] == s
      ensures p[|p| - 1] != t
    {
      var n := |p|;
      if n > 1 {
        assert Linked(es, p[n - 2], p[n - 1]);
        var e :| e in es && Joins(e, p[n - 2], p[n - 1]);
      }
    }
  }

  /** If every edge joins two nodes with the same label, connected nodes
      have the same label. */
  lemma LabelsAgree(es: seq<Edge>, tag: map<NodeId, NodeId>, x: NodeId, y: NodeId)
    requires forall e :: e in es ==> e.source in tag && e.target in tag && tag[e.source] == tag[e.target]
    requires x in tag
    requires Connected(es, x, y)
    ensures y in tag && tag[y] == tag[x]
  {
    var p :| IsWalk(es, p) && p[0] == x && p[|p| - 1] == y;
    for i := 0 to |p| - 1
      invariant p[i] in tag && tag[p[i]] == tag[x]
    {
      assert Linked(es, p[i], p[i + 1]);
      var e :| e in es && Joins(e, p[i], p[i + 1]);
    }
  }
}
