/** Kruskal's spanning forest (`kruskal` in public/index.js): collect each
    undirected edge once, sort the edges by weight, and keep every edge
    that joins two different sets of the union-find structure. */
module Kruskal {
  import opened Common
  import opened Graphs
  import opened EdgeSort
  import opened DisjointSets

  // ---------------------------------------------------------------------
  // Collecting the edges once each (public/index.js:407-422)
  // ---------------------------------------------------------------------

  /** The key of an edge, the same for both directions: its endpoints in
      ascending order. */
  function Key(e: Edge): (k: (NodeId, NodeId))
    ensures k.0 <= k.1 && {k.0, k.1} == {e.source, e.target}
  {
    if e.source < e.target then (e.source, e.target) else (e.target, e.source)
  }

  /** The keys of the edges in `s`. */
  function Keys(s: seq<Edge>): set<(NodeId, NodeId)>
  {
    set e | e in s :: Key(e)
  }

  /** The first edge of `s` for each key, in the order of `s`. */
  function FirstPerKey(s: seq<Edge>): seq<Edge>
  {
    if s == [] then []
    else
      var p := s[..|s| - 1];
      FirstPerKey(p) + (if Key(s[|s| - 1]) in Keys(p) then [] else [s[|s| - 1]])
  }

  /** The entries of node `n`'s adjacency list `adj` as edges leaving `n`. */
  function Row(n: NodeId, adj: seq<Adj>): seq<Edge>
  {
    seq(|adj|, k requires 0 <= k < |adj| => Edge(n, adj[k].target, adj[k].weight))
  }

  /** The adjacency lists of the first `i` nodes as one edge list, in the
      order the nested loops visit them. */
  function FlattenUpTo(g: Graph, i: nat): seq<Edge>
    requires i <= |g.order|
    requires forall n :: n in g.order ==> n in g.adj
  {
    if i == 0 then []
    else FlattenUpTo(g, i - 1) + Row(g.order[i - 1], g.adj[g.order[i - 1]])
  }

  /** Every adjacency entry of `g` as an edge. */
  function Flatten(g: Graph): seq<Edge>
    requires forall n :: n in g.order ==> n in g.adj
  {
    FlattenUpTo(g, |g.order|)
  }

  /** Appending one edge: it is kept exactly when its key is new. */
  lemma FirstPerKeySnoc(s: seq<Edge>, e: Edge)
    ensures FirstPerKey(s + [e]) == FirstPerKey(s) + (if Key(e) in Keys(s) then [] else [e])
    ensures Keys(s + [e]) == Keys(s) + {Key(e)}
  {
    assert (s + [e])[..|s|] == s;
  }

  /** Reading one more entry of a row. */
  lemma ReadNext(read: seq<Edge>, done: seq<Edge>, row: seq<Edge>, j: nat)
    requires j < |row| && read == done + row[..j]
    ensures read + [row[j]] == done + row[..j + 1]
  {
    assert row[..j + 1] == row[..j] + [row[j]];
  }

  /** The kept edges are edges of `s` and cover every key of `s`. */
  lemma {:induction false} FirstPerKeyCovers(s: seq<Edge>)
    ensures forall e :: e in FirstPerKey(s) ==> e in s
    ensures Keys(FirstPerKey(s)) == Keys(s)
  {
    if s != [] {
      var p, e := s[..|s| - 1], s[|s| - 1];
      assert s == p + [e];
      FirstPerKeyCovers(p);
      FirstPerKeySnoc(p, e);
      assert Keys(FirstPerKey(p) + [e]) == Keys(FirstPerKey(p)) + {Key(e)};
    }
  }

  /** No two kept edges have the same key: each undirected edge is kept at
      most once. */
  lemma {:induction false} FirstPerKeyUnique(s: seq<Edge>)
    ensures forall a, b :: 0 <= a < b < |FirstPerKey(s)| ==> Key(FirstPerKey(s)[a]) != Key(FirstPerKey(s)[b])
  {
    if s != [] {
      var p, e := s[..|s| - 1], s[|s| - 1];
      assert s == p + [e];
      FirstPerKeyUnique(p);
      FirstPerKeySnoc(p, e);
      FirstPerKeyCovers(p);
      var r := FirstPerKey(p);
      if Key(e) !in Keys(p) {
        forall a | 0 <= a < |r|
          ensures Key(r[a]) != Key(e)
        {
          assert r[a] in r;
        }
      }
    }
  }

  /** Later nodes only add edges. */
  lemma {:induction false} FlattenMono(g: Graph, i: nat, j: nat, e: Edge)
    requires i <= j <= |g.order|
    requires forall n :: n in g.order ==> n in g.adj
    requires e in FlattenUpTo(g, i)
    ensures e in FlattenUpTo(g, j)
    decreases j
  {
    if i < j {
      FlattenMono(g, i, j - 1, e);
    }
  }

  /** The flattened edges are exactly the adjacency entries of the graph. */
  lemma {:induction false} FlattenIsGraph(g: Graph, i: nat)
    requires Valid(g) && i <= |g.order|
    ensures forall e :: e in FlattenUpTo(g, i) ==> HasEdge(g, e.source, e.target, e.weight)
    ensures forall k, a :: 0 <= k < i && a in g.adj[g.order[k]] ==> Edge(g.order[k], a.target, a.weight) in FlattenUpTo(g, i)
  {
    if i > 0 {
      FlattenIsGraph(g, i - 1);
      var n := g.order[i - 1];
      var row := Row(n, g.adj[n]);
      forall e | e in row
        ensures HasEdge(g, e.source, e.target, e.weight)
      {
        var k :| 0 <= k < |row| && row[k] == e;
        assert g.adj[n][k] == Adj(e.target, e.weight);
      }
      forall a | a in g.adj[n]
        ensures Edge(n, a.target, a.weight) in row
      {
        var k :| 0 <= k < |g.adj[n]| && g.adj[n][k] == a;
        assert row[k] == Edge(n, a.target, a.weight);
      }
    }
  }

  /** Reading the adjacency lists in node order and keeping the first edge
      for each unordered pair of endpoints. */
  method CollectEdges(g: Graph) returns (edges: seq<Edge>)
    requires Valid(g)
    ensures edges == FirstPerKey(Flatten(g))
  {
    edges := [];
    var seen: set<(NodeId, NodeId)> := {};
    ghost var read: seq<Edge> := [];
    var i := 0;
    while i < |g.order|
      invariant i <= |g.order| && read == FlattenUpTo(g, i)
      invariant edges == FirstPerKey(read) && seen == Keys(read)
    {
      var source := g.order[i];
      edges, seen := CollectRow(source, g.adj[source], edges, seen, read);
      read := read + Row(source, g.adj[source]);
      i := i + 1;
    }
  }

  /** The inner loop of the collection, over the adjacency list `adj` of
      node `source`, after the edge list `done` has been read: an entry is
      kept exactly when its key has not been seen. */
  method CollectRow(source: NodeId, adj: seq<Adj>, edges: seq<Edge>, seen: set<(NodeId, NodeId)>, ghost done: seq<Edge>)
    returns (edges': seq<Edge>, seen': set<(NodeId, NodeId)>)
    requires edges == FirstPerKey(done) && seen == Keys(done)
    ensures edges' == FirstPerKey(done + Row(source, adj)) && seen' == Keys(done + Row(source, adj))
  {
    edges', seen' := edges, seen;
    ghost var row := Row(source, adj);
    ghost var read := done;
    assert done + row[..0] == done;
    var j := 0;
    while j < |adj|
      invariant j <= |adj| && read == done + row[..j]
      invariant edges' == FirstPerKey(read) && seen' == Keys(read)
    {
      var target := adj[j].target;
      var key := if source < target then (source, target) else (target, source);
      assert row[j] == Edge(source, target, adj[j].weight) && key == Key(row[j]);
      FirstPerKeySnoc(read, row[j]);
      ReadNext(read, done, row, j);
      if key !in seen' {
        seen' := seen' + {key};
        edges' := edges' + [Edge(source, target, adj[j].weight)];
      }
      read := read + [row[j]];
      j := j + 1;
    }
    assert row[..|adj|] == row;
  }

  // ---------------------------------------------------------------------
  // The greedy loop (public/index.js:425-458)
  // ---------------------------------------------------------------------

  /** Each edge of `es` joins two nodes with the same root. */
  ghost predicate SameRoots(es: seq<Edge>, roots: map<NodeId, NodeId>)
  {
    forall e :: e in es ==> e.source in roots && e.target in roots && roots[e.source] == roots[e.target]
  }

  /** The edges `tree` connect every node to its root. */
  ghost predicate RootsConnected(tree: seq<Edge>, roots: map<NodeId, NodeId>)
  {
    forall m :: m in roots ==> Connected(tree, m, roots[m])
  }

  /** No edge of `tree` is heavier than an edge of `s` from index `i` on. */
  ghost predicate LighterThanRest(tree: seq<Edge>, s: seq<Edge>, i: nat)
  {
    forall a, b :: 0 <= a < |tree| && i <= b < |s| ==> tree[a].weight <= s[b].weight
  }

  /** The kept edges form a forest whose trees are the sets: each kept edge
      joins two nodes with the same root, and every node is connected to
      its root by kept edges. */
  ghost predicate ForestInv(tree: seq<Edge>, roots: map<NodeId, NodeId>)
  {
    Acyclic(tree) && SameRoots(tree, roots) && RootsConnected(tree, roots)
  }

  /** The kept edges are sorted edges, in weight order, none heavier than
      the edges still to come. */
  ghost predicate OrderInv(sorted: seq<Edge>, i: nat, tree: seq<Edge>)
  {
    && i <= |sorted|
    && (forall e :: e in tree ==> e in sorted)
    && SortedByWeight(sorted) && SortedByWeight(tree) && LighterThanRest(tree, sorted, i)
  }

  /** The greedy choice over the first `k` sorted edges: an edge is kept
      exactly when the edges kept before it leave its two ends
      unconnected. */
  ghost function Kept(sorted: seq<Edge>, k: nat): seq<Edge>
    requires k <= |sorted|
  {
    if k == 0 then []
    else
      var tree, e := Kept(sorted, k - 1), sorted[k - 1];
      if Connected(tree, e.source, e.target) then tree else tree + [e]
  }

  /** Kept edges that join nodes with the same root never connect two
      nodes with different roots. */
  lemma RootsApart(tree: seq<Edge>, roots: map<NodeId, NodeId>, u: NodeId, v: NodeId)
    requires SameRoots(tree, roots) && u in roots && v in roots && roots[u] != roots[v]
    ensures !Connected(tree, u, v)
  {
    forall p | IsWalk(tree, p) && p[0] == u
      ensures p[|p| - 1] != v
    {
      assert Connected(tree, u, p[|p| - 1]);
      LabelsAgree(tree, roots, u, p[|p| - 1]);
    }
  }

  /** While the sets are the components of the kept edges, comparing the
      roots of an edge's ends is the greedy test of `Kept`. */
  lemma KeptStep(tree: seq<Edge>, sorted: seq<Edge>, i: nat, roots: map<NodeId, NodeId>, accept: bool)
    requires i < |sorted| && tree == Kept(sorted, i) && ForestInv(tree, roots)
    requires sorted[i].source in roots && sorted[i].target in roots
    requires accept <==> roots[sorted[i].source] != roots[sorted[i].target]
    ensures Kept(sorted, i + 1) == if accept then tree + [sorted[i]] else tree
  {
    var e := sorted[i];
    if roots[e.source] != roots[e.target] {
      RootsApart(tree, roots, e.source, e.target);
    } else {
      SameRootConnected(tree, roots, e.source, e.target);
    }
  }

  /** Merging two sets keeps nodes with the same root together. */
  lemma RelabelSameRoots(es: seq<Edge>, roots: map<NodeId, NodeId>, x: NodeId, y: NodeId)
    requires SameRoots(es, roots)
    ensures SameRoots(es, Relabel(roots, x, y))
  {
  }

  /** Adding an edge between two sets and merging their roots keeps every
      node connected to its root. */
  lemma MergeConnected(tree: seq<Edge>, e: Edge, roots: map<NodeId, NodeId>, x: NodeId, y: NodeId)
    requires RootsConnected(tree, roots)
    requires e.source in roots && e.target in roots
    requires (x, y) == (roots[e.source], roots[e.target]) || (x, y) == (roots[e.target], roots[e.source])
    ensures RootsConnected(tree + [e], Relabel(roots, x, y))
  {
    var tree' := tree + [e];
    var roots' := Relabel(roots, x, y);
    var s, t := e.source, e.target;
    forall f | f in tree
      ensures f in tree'
    {
    }
    assert Connected(tree', roots[s], roots[t]) by {
      ConnectedMono(tree, tree', s, roots[s]);
      ConnectedMono(tree, tree', t, roots[t]);
      ConnectedSym(tree', s, roots[s]);
      ConnectedByEdge(tree', e);
      ConnectedTrans(tree', roots[s], s, t);
      ConnectedTrans(tree', roots[s], t, roots[t]);
    }
    assert Connected(tree', x, y) && Connected(tree', y, x) by {
      ConnectedSym(tree', roots[s], roots[t]);
    }
    forall m | m in roots'
      ensures Connected(tree', m, roots'[m])
    {
      ConnectedMono(tree, tree', m, roots[m]);
      if roots[m] == x {
        ConnectedTrans(tree', m, x, y);
      }
    }
  }

  /** One accepted edge: it joins two nodes with different roots, so the
      forest stays a forest, and after the merge it joins nodes with the
      same root. */
  lemma AcceptStep(tree: seq<Edge>, sorted: seq<Edge>, i: nat, roots: map<NodeId, NodeId>, roots': map<NodeId, NodeId>)
    requires i < |sorted| && ForestInv(tree, roots) && SameRoots(sorted[..i], roots)
    requires sorted[i].source in roots && sorted[i].target in roots
    requires roots[sorted[i].source] != roots[sorted[i].target]
    requires roots' == Relabel(roots, roots[sorted[i].source], roots[sorted[i].target])
      || roots' == Relabel(roots, roots[sorted[i].target], roots[sorted[i].source])
    ensures ForestInv(tree + [sorted[i]], roots') && SameRoots(sorted[..i + 1], roots')
    ensures roots'.Keys == roots.Keys
  {
    var e, done := sorted[i], sorted[..i];
    assert sorted[..i + 1] == done + [e];
    RootsApart(tree, roots, e.source, e.target);
    AcyclicSnoc(tree, e);
    if roots' == Relabel(roots, roots[e.source], roots[e.target]) {
      RelabelSameRoots(tree, roots, roots[e.source], roots[e.target]);
      RelabelSameRoots(done, roots, roots[e.source], roots[e.target]);
      MergeConnected(tree, e, roots, roots[e.source], roots[e.target]);
    } else {
      RelabelSameRoots(tree, roots, roots[e.target], roots[e.source]);
      RelabelSameRoots(done, roots, roots[e.target], roots[e.source]);
      MergeConnected(tree, e, roots, roots[e.target], roots[e.source]);
    }
  }

  /** Keeping or skipping the next sorted edge keeps the kept edges in
      weight order. */
  lemma OrderStep(sorted: seq<Edge>, i: nat, tree: seq<Edge>, accept: bool)
    requires OrderInv(sorted, i, tree) && i < |sorted|
    ensures OrderInv(sorted, i + 1, if accept then tree + [sorted[i]] else tree)
  {
    if accept {
      SortedSnoc(tree, sorted[i]);
    }
  }

  /** A skipped edge already joins two nodes with the same root. */
  lemma SkipStep(sorted: seq<Edge>, i: nat, roots: map<NodeId, NodeId>)
    requires i < |sorted| && SameRoots(sorted[..i], roots)
    requires sorted[i].source in roots && sorted[i].target in roots
    requires roots[sorted[i].source] == roots[sorted[i].target]
    ensures SameRoots(sorted[..i + 1], roots)
  {
    assert sorted[..i + 1] == sorted[..i] + [sorted[i]];
  }

  /** Nodes with the same root are connected. */
  lemma SameRootConnected(tree: seq<Edge>, roots: map<NodeId, NodeId>, u: NodeId, v: NodeId)
    requires RootsConnected(tree, roots) && u in roots && v in roots && roots[u] == roots[v]
    ensures Connected(tree, u, v)
  {
    assert Connected(tree, u, roots[u]) && Connected(tree, v, roots[v]);
    ConnectedSym(tree, v, roots[v]);
    ConnectedTrans(tree, u, roots[u], v);
  }

  /** Before the loop every node is its own root and the forest is empty. */
  lemma GreedyStart(sorted: seq<Edge>, roots: map<NodeId, NodeId>)
    requires SortedByWeight(sorted)
    requires forall m :: m in roots ==> roots[m] == m
    ensures ForestInv([], roots) && SameRoots(sorted[..0], roots) && OrderInv(sorted, 0, [])
  {
    forall m | m in roots
      ensures Connected([], m, roots[m])
    {
      ConnectedSelf([], m);
    }
  }

  /** The greedy loop over the sorted edges (public/index.js:456-458) with
      a fresh union-find structure over `nodes`: an edge is kept exactly
      when its two ends have different roots. The kept edges are sorted
      edges in weight order, form a forest, and connect the two ends of
      every sorted edge; they are exactly the greedy choice `Kept`. */
  method Greedy(nodes: seq<NodeId>, sorted: seq<Edge>) returns (tree: seq<Edge>)
    requires SortedByWeight(sorted)
    requires forall e :: e in sorted ==> e.source in nodes && e.target in nodes
    ensures tree == Kept(sorted, |sorted|)
    ensures forall e :: e in tree ==> e in sorted
    ensures SortedByWeight(tree) && Acyclic(tree)
    ensures forall e :: e in sorted ==> Connected(tree, e.source, e.target)
  {
    var uf := new UnionFind(nodes);
    tree := [];
    var i := 0;
    GreedyStart(sorted, uf.Roots());
    while i < |sorted|
      invariant i <= |sorted| && uf.Valid() && uf.Roots().Keys == Elems(nodes)
      // the kept edges are the greedy choice over sorted[..i], in weight order,
      // and a forest whose components are the union-find sets
      invariant GreedyInv(sorted, i, tree, uf.Roots()) == true
    {
      tree := Consider(uf, sorted, i, tree);
      i := i + 1;
    }
    GreedyDone(sorted, tree, uf.Roots());
  }

  /** After the last sorted edge, the invariant gives everything `Greedy`
      promises. */
  lemma GreedyDone(sorted: seq<Edge>, tree: seq<Edge>, roots: map<NodeId, NodeId>)
    requires GreedyInv(sorted, |sorted|, tree, roots)
    ensures tree == Kept(sorted, |sorted|)
    ensures forall e :: e in tree ==> e in sorted
    ensures SortedByWeight(tree) && Acyclic(tree)
    ensures forall e :: e in sorted ==> Connected(tree, e.source, e.target)
  {
    assert sorted[..|sorted|] == sorted;
    forall e | e in sorted
      ensures Connected(tree, e.source, e.target)
    {
      SameRootConnected(tree, roots, e.source, e.target);
    }
  }

  /** What the greedy loop keeps after `i` sorted edges: the kept edges
      are the greedy choice, in weight order, and form a forest whose
      trees are the sets, which already join the ends of every edge read. */
  ghost predicate GreedyInv(sorted: seq<Edge>, i: nat, tree: seq<Edge>, roots: map<NodeId, NodeId>)
  {
    && OrderInv(sorted, i, tree)
    && ForestInv(tree, roots) && SameRoots(sorted[..i], roots)
    && tree == Kept(sorted, i)
  }

  /** One step of the greedy loop (public/index.js:456-458): keep
      `sorted[i]` exactly when its two ends have different roots, and then
      merge their sets. */
  method Consider(uf: UnionFind, sorted: seq<Edge>, i: nat, tree: seq<Edge>) returns (tree': seq<Edge>)
    requires uf.Valid() && i < |sorted| && GreedyInv(sorted, i, tree, uf.Roots())
    requires sorted[i].source in uf.Roots() && sorted[i].target in uf.Roots()
    modifies uf
    ensures uf.Valid() && uf.Roots().Keys == old(uf.Roots()).Keys
    ensures tree' == if old(uf.Roots())[sorted[i].source] != old(uf.Roots())[sorted[i].target] then tree + [sorted[i]] else tree
    ensures GreedyInv(sorted, i + 1, tree', uf.Roots())
  {
    var e := sorted[i];
    ghost var roots := uf.Roots();
    var rs := uf.Find(e.source);
    var rt := uf.Find(e.target);
    assert uf.Roots() == roots && rs == roots[e.source] && rt == roots[e.target];
    OrderStep(sorted, i, tree, rs != rt);
    KeptStep(tree, sorted, i, roots, rs != rt);
    if rs != rt {
      var merged := uf.Union(e.source, e.target);
      ghost var roots' := uf.Roots();
      assert roots' == Relabel(roots, rs, rt) || roots' == Relabel(roots, rt, rs);
      AcceptStep(tree, sorted, i, roots, roots');
      tree' := tree + [e];
    } else {
      SkipStep(sorted, i, roots);
      tree' := tree;
    }
  }

  /** Kruskal's algorithm: the kept edges are edges of the graph, in
      non-decreasing weight order, form a forest, and connect the two ends
      of every edge of the graph. They are the greedy choice over the
      collected edges in weight order. */
  method Kruskal(g: Graph) returns (tree: seq<Edge>)
    requires Valid(g)
    ensures var sorted := SortByWeight(FirstPerKey(Flatten(g))); tree == Kept(sorted, |sorted|)
    ensures forall e :: e in tree ==> HasEdge(g, e.source, e.target, e.weight)
    ensures SortedByWeight(tree)
    ensures Acyclic(tree)
    ensures forall u, v, w :: HasEdge(g, u, v, w) ==> Connected(tree, u, v)
  {
    var edges := CollectEdges(g);
    var sorted := SortByWeight(edges);
    forall e | e in sorted
      ensures HasEdge(g, e.source, e.target, e.weight) && e.source in g.order && e.target in g.order
    {
      EdgeKnown(g, sorted, e);
    }
    tree := Greedy(g.order, sorted);
    forall u, v, w | HasEdge(g, u, v, w)
      ensures Connected(tree, u, v)
    {
      var f := CoveringEdge(g, sorted, u, v, w);
      assert Connected(tree, f.source, f.target);
      if f.source != u {
        ConnectedSym(tree, f.source, f.target);
      }
    }
  }

  /** Every edge taken from the sorted list is an edge of the graph. */
  lemma EdgeKnown(g: Graph, sorted: seq<Edge>, e: Edge)
    requires Valid(g) && sorted == SortByWeight(FirstPerKey(Flatten(g))) && e in sorted
    ensures HasEdge(g, e.source, e.target, e.weight) && e.source in g.adj && e.target in g.adj
  {
    SortedMembers(FirstPerKey(Flatten(g)), e);
    FirstPerKeyCovers(Flatten(g));
    FlattenIsGraph(g, |g.order|);
  }

  /** Every edge of the graph has a sorted edge with the same two ends. */
  lemma CoveringEdge(g: Graph, sorted: seq<Edge>, u: NodeId, v: NodeId, w: nat) returns (f: Edge)
    requires Valid(g) && sorted == SortByWeight(FirstPerKey(Flatten(g))) && HasEdge(g, u, v, w)
    ensures f in sorted && Joins(f, u, v)
  {
    var s := Flatten(g);
    FlattenIsGraph(g, |g.order|);
    var k :| 0 <= k < |g.order| && g.order[k] == u;
    assert Edge(u, v, w) in s;
    assert Key(Edge(u, v, w)) in Keys(s);
    FirstPerKeyCovers(s);
    f :| f in FirstPerKey(s) && Key(f) == Key(Edge(u, v, w));
    SortedMembers(FirstPerKey(s), f);
  }
}
