/** The union-find structure inside `kruskal` in public/index.js: a
    `parent` dictionary whose chains end at a root (a node that is its own
    parent), a `rank` dictionary bounding the height of each tree, `find`
    with path compression and `union` by rank. */
module DisjointSets {
  import opened Common

  /** `parent` and `rank` cover the same nodes, every parent is a node, and
      a node that is not a root has a lower rank than its parent. */
  ghost predicate Ranked(parent: map<NodeId, NodeId>, rank: map<NodeId, nat>)
  {
    parent.Keys == rank.Keys &&
    forall n {:trigger LinkRanked(parent, rank, n)} :: n in parent ==> LinkRanked(parent, rank, n)
  }

  /** The parent of `n` is a node, and outranks `n` unless `n` is a root. */
  ghost predicate LinkRanked(parent: map<NodeId, NodeId>, rank: map<NodeId, nat>, n: NodeId)
    requires n in parent && parent.Keys == rank.Keys
  {
    parent[n] in parent && (parent[n] != n ==> rank[n] < rank[parent[n]])
  }

  /** The nodes of higher rank than `n`; following a parent link removes at
      least one of them, so parent chains end. */
  ghost function Above(rank: map<NodeId, nat>, n: NodeId): set<NodeId>
    requires n in rank
  {
    set m | m in rank && rank[m] > rank[n]
  }

  lemma AboveShrinks(rank: map<NodeId, nat>, a: NodeId, b: NodeId)
    requires a in rank && b in rank && rank[a] < rank[b]
    ensures |Above(rank, b)| < |Above(rank, a)|
  {
    var sa, sb := Above(rank, a), Above(rank, b);
    assert sb <= sa;
    assert sa == sb + (sa - sb) && sb * (sa - sb) == {};
    assert b in sa - sb;
  }

  /** One step up a parent chain stays among the nodes and strictly
      shrinks the set of higher-ranked nodes. */
  lemma ParentStep(parent: map<NodeId, NodeId>, rank: map<NodeId, nat>, n: NodeId)
    requires Ranked(parent, rank) && n in parent && parent[n] != n
    ensures parent[n] in parent && rank[n] < rank[parent[n]]
    ensures |Above(rank, parent[n])| < |Above(rank, n)|
  {
    assert LinkRanked(parent, rank, n);
    AboveShrinks(rank, n, parent[n]);
  }

  /** The root that `find(n)` reaches by following parent links. */
  ghost function Root(parent: map<NodeId, NodeId>, rank: map<NodeId, nat>, n: NodeId): (r: NodeId)
    requires Ranked(parent, rank) && n in parent
    ensures r in parent && parent[r] == r
    decreases |Above(rank, n)|
  {
    if parent[n] == n then n
    else
      ParentStep(parent, rank, n);
      Root(parent, rank, parent[n])
  }

  /** The nodes `find(n)` visits: `n` and every node up its parent chain,
      the root included. */
  ghost function PathOf(parent: map<NodeId, NodeId>, rank: map<NodeId, nat>, n: NodeId): set<NodeId>
    requires Ranked(parent, rank) && n in parent
    decreases |Above(rank, n)|
  {
    if parent[n] == n then {n}
    else
      ParentStep(parent, rank, n);
      {n} + PathOf(parent, rank, parent[n])
  }

  /** Every node on the path from `n` ranks at least as high as `n`. */
  lemma {:induction false} PathRanks(parent: map<NodeId, NodeId>, rank: map<NodeId, nat>, n: NodeId, m: NodeId)
    requires Ranked(parent, rank) && n in parent && m in PathOf(parent, rank, n)
    ensures m in rank && rank[n] <= rank[m]
    decreases |Above(rank, n)|
  {
    if parent[n] != n && m != n {
      ParentStep(parent, rank, n);
      PathRanks(parent, rank, parent[n], m);
    }
  }

  /** A root's rank is at least the rank of every node below it, and
      strictly above it for a node that is not a root. */
  lemma {:induction false} RootRankAbove(parent: map<NodeId, NodeId>, rank: map<NodeId, nat>, n: NodeId)
    requires Ranked(parent, rank) && n in parent
    ensures rank[n] <= rank[Root(parent, rank, n)]
    ensures parent[n] != n ==> rank[n] < rank[Root(parent, rank, n)]
    decreases |Above(rank, n)|
  {
    if parent[n] != n {
      ParentStep(parent, rank, n);
      RootRankAbove(parent, rank, parent[n]);
    }
  }

  /** Pointing `n` straight at its root keeps the structure ranked. */
  lemma CompressRanked(parent: map<NodeId, NodeId>, rank: map<NodeId, nat>, n: NodeId)
    requires Ranked(parent, rank) && n in parent
    ensures Ranked(parent[n := Root(parent, rank, n)], rank)
  {
    RootRankAbove(parent, rank, n);
    var p' := parent[n := Root(parent, rank, n)];
    forall k | k in p'
      ensures LinkRanked(p', rank, k)
    {
      assert LinkRanked(parent, rank, k);
    }
  }

  /** Pointing `n` straight at its root changes no node's root. */
  lemma {:induction false} CompressRoot(parent: map<NodeId, NodeId>, rank: map<NodeId, nat>, n: NodeId, m: NodeId)
    requires Ranked(parent, rank) && n in parent && m in parent
    requires Ranked(parent[n := Root(parent, rank, n)], rank)
    ensures Root(parent[n := Root(parent, rank, n)], rank, m) == Root(parent, rank, m)
    decreases |Above(rank, m)|
  {
    var r := Root(parent, rank, n);
    var p' := parent[n := r];
    if m == n {
      if parent[n] == n {
        assert p' == parent;
      } else {
        assert p'[n] == r && r != n && p'[r] == r;
        assert Root(p', rank, r) == r;
      }
    } else if parent[m] != m {
      ParentStep(parent, rank, m);
      CompressRoot(parent, rank, n, parent[m]);
      assert p'[m] == parent[m];
    } else {
      assert p'[m] == m;
    }
  }

  /** Pointing root `x` at root `y`, with ranks that keep `x` below `y`,
      keeps the structure ranked. */
  lemma LinkKeepsRanked(parent: map<NodeId, NodeId>, rank: map<NodeId, nat>, rank': map<NodeId, nat>, x: NodeId, y: NodeId)
    requires Ranked(parent, rank) && x in parent && y in parent
    requires parent[x] == x && parent[y] == y && x != y
    requires rank' == rank || rank' == rank[y := rank[y] + 1]
    requires rank'[x] < rank'[y]
    ensures Ranked(parent[x := y], rank')
  {
    var p' := parent[x := y];
    forall k | k in p'
      ensures LinkRanked(p', rank', k)
    {
      assert LinkRanked(parent, rank, k);
    }
  }

  /** After pointing root `x` at root `y`, the nodes that had root `x` have
      root `y`, and every other node keeps its root. */
  lemma {:induction false} LinkRoot(parent: map<NodeId, NodeId>, rank: map<NodeId, nat>, rank': map<NodeId, nat>, x: NodeId, y: NodeId, m: NodeId)
    requires Ranked(parent, rank) && x in parent && y in parent && m in parent
    requires parent[x] == x && parent[y] == y && x != y
    requires Ranked(parent[x := y], rank')
    ensures Root(parent[x := y], rank', m) == if Root(parent, rank, m) == x then y else Root(parent, rank, m)
    decreases |Above(rank, m)|
  {
    var p' := parent[x := y];
    if parent[m] != m {
      ParentStep(parent, rank, m);
      LinkRoot(parent, rank, rank', x, y, parent[m]);
    } else if m == x {
      assert p'[y] == y;
    }
  }

  /** The root of every node. */
  ghost function RootsOf(parent: map<NodeId, NodeId>, rank: map<NodeId, nat>): map<NodeId, NodeId>
    requires Ranked(parent, rank)
  {
    map m | m in parent :: Root(parent, rank, m)
  }

  /** The roots after the set with root `x` is merged into the set with
      root `y`. */
  function Relabel(roots: map<NodeId, NodeId>, x: NodeId, y: NodeId): map<NodeId, NodeId>
  {
    map m | m in roots :: if roots[m] == x then y else roots[m]
  }

  /** Merging two different sets puts two nodes in the same set exactly
      when they were in the same set before or they were in the two
      merged sets. */
  lemma RelabelJoins(roots: map<NodeId, NodeId>, x: NodeId, y: NodeId, m: NodeId, k: NodeId)
    requires m in roots && k in roots && x != y
    ensures Relabel(roots, x, y)[m] == Relabel(roots, x, y)[k] <==>
      roots[m] == roots[k] || (roots[m] in {x, y} && roots[k] in {x, y})
  {
  }

  /** Path compression at `n` keeps the structure ranked and every root. */
  lemma CompressRoots(parent: map<NodeId, NodeId>, rank: map<NodeId, nat>, n: NodeId)
    requires Ranked(parent, rank) && n in parent
    ensures Ranked(parent[n := Root(parent, rank, n)], rank)
    ensures RootsOf(parent[n := Root(parent, rank, n)], rank) == RootsOf(parent, rank)
  {
    CompressRanked(parent, rank, n);
    var p' := parent[n := Root(parent, rank, n)];
    var before, after := RootsOf(parent, rank), RootsOf(p', rank);
    assert after.Keys == before.Keys;
    forall m | m in parent
      ensures after[m] == before[m]
    {
      CompressRoot(parent, rank, n, m);
    }
  }

  /** Linking root `x` under root `y` moves the set of `x` into the set of
      `y`. */
  lemma LinkRoots(parent: map<NodeId, NodeId>, rank: map<NodeId, nat>, rank': map<NodeId, nat>, x: NodeId, y: NodeId)
    requires Ranked(parent, rank) && x in parent && y in parent
    requires parent[x] == x && parent[y] == y && x != y
    requires Ranked(parent[x := y], rank')
    ensures RootsOf(parent[x := y], rank') == Relabel(RootsOf(parent, rank), x, y)
  {
    var before := RootsOf(parent, rank);
    var after := RootsOf(parent[x := y], rank');
    var merged := Relabel(before, x, y);
    assert after.Keys == merged.Keys;
    forall m | m in parent
      ensures after[m] == merged[m]
    {
      LinkRoot(parent, rank, rank', x, y, m);
    }
  }

  class UnionFind {
    var parent: map<NodeId, NodeId>
    var rank: map<NodeId, nat>

    ghost predicate Valid()
      reads this
    {
      Ranked(parent, rank)
    }

    /** The root of each node. */
    ghost function Roots(): map<NodeId, NodeId>
      reads this
      requires Valid()
    {
      RootsOf(parent, rank)
    }

    /** Every node starts as its own root with rank 0. */
    constructor (nodes: seq<NodeId>)
      ensures Valid()
      ensures parent.Keys == Elems(nodes)
      ensures forall n :: n in parent ==> parent[n] == n && rank[n] == 0
      ensures Roots() == map n | n in nodes :: n
    {
      parent := map[];
      rank := map[];
      new;
      var i := 0;
      while i < |nodes|
        invariant i <= |nodes|
        invariant parent.Keys == rank.Keys == Elems(nodes[..i])
        invariant forall n :: n in parent ==> parent[n] == n && rank[n] == 0
      {
        assert nodes[..i + 1] == nodes[..i] + [nodes[i]];
        parent := parent[nodes[i] := nodes[i]];
        rank := rank[nodes[i] := 0];
        i := i + 1;
      }
      assert nodes[..i] == nodes;
      forall n | n in parent
        ensures LinkRanked(parent, rank, n)
      {
      }
    }

    /** The root of `n`. Afterwards every node on the path from `n` to
        the root points straight at the root, every other node keeps its
        parent, and every node keeps its root. */
    method Find(n: NodeId) returns (r: NodeId)
      requires Valid() && n in parent
      modifies this
      ensures Valid() && rank == old(rank) && parent.Keys == old(parent).Keys
      ensures r == old(Roots())[n]
      ensures parent[n] == r && parent[r] == r
      ensures Roots() == old(Roots())
      ensures forall m :: m in parent ==>
        parent[m] == if m in PathOf(old(parent), old(rank), n) then r else old(parent)[m]
      decreases |Above(rank, n)|
    {
      if parent[n] != n {
        ParentStep(parent, rank, n);
        ghost var q := parent[n];
        ghost var p0, r0 := parent, rank;
        var top := Find(parent[n]);
        assert n !in PathOf(p0, r0, q) by {
          if n in PathOf(p0, r0, q) {
            PathRanks(p0, r0, q, n);
          }
        }
        ghost var p := parent;
        assert p[n] == q;
        assert Root(p, rank, n) == top by {
          ParentStep(p, rank, n);
          assert RootsOf(p, rank)[q] == top;
        }
        CompressRoots(p, rank, n);
        parent := parent[n := top];
      }
      r := parent[n];
    }

    /** Links two different roots by rank: the root of lower rank goes
        under the other, and on a tie `y` goes under `x`, whose rank grows. */
    method Link(x: NodeId, y: NodeId)
      requires Valid() && x in parent && y in parent && x != y
      requires parent[x] == x && parent[y] == y
      modifies this
      ensures Valid() && parent.Keys == old(parent).Keys
      ensures old(rank)[x] < old(rank)[y] ==> Roots() == Relabel(old(Roots()), x, y) && rank == old(rank)
      ensures old(rank)[x] > old(rank)[y] ==> Roots() == Relabel(old(Roots()), y, x) && rank == old(rank)
      ensures old(rank)[x] == old(rank)[y] ==>
        Roots() == Relabel(old(Roots()), y, x) && rank == old(rank)[x := old(rank)[x] + 1]
    ensures parent == if old(rank)[x] < old(rank)[y] then old(parent)[x := y] else old(parent)[y := x]
    {
      ghost var p, rk := parent, rank;
      if rank[x] < rank[y] {
        LinkKeepsRanked(p, rk, rk, x, y);
        LinkRoots(p, rk, rk, x, y);
        parent := parent[x := y];
      } else if rank[x] > rank[y] {
        LinkKeepsRanked(p, rk, rk, y, x);
        LinkRoots(p, rk, rk, y, x);
        parent := parent[y := x];
      } else {
        LinkKeepsRanked(p, rk, rk[x := rk[x] + 1], y, x);
        LinkRoots(p, rk, rk[x := rk[x] + 1], y, x);
        parent := parent[y := x];
        rank := rank[x := rank[x] + 1];
      }
    }

    /** Merges the sets of `a` and `b` and reports whether they were
        different sets. */
    method Union(a: NodeId, b: NodeId) returns (merged: bool)
      requires Valid() && a in parent && b in parent
      modifies this
      ensures Valid() && parent.Keys == old(parent).Keys
      ensures merged <==> old(Roots())[a] != old(Roots())[b]
      ensures !merged ==> Roots() == old(Roots()) && rank == old(rank)
      ensures merged ==>
        var ra, rb := old(Roots())[a], old(Roots())[b];
        if old(rank)[ra] < old(rank)[rb] then
          Roots() == Relabel(old(Roots()), ra, rb) && rank == old(rank)
        else if old(rank)[ra] > old(rank)[rb] then
          Roots() == Relabel(old(Roots()), rb, ra) && rank == old(rank)
        else
          Roots() == Relabel(old(Roots()), rb, ra) && rank == old(rank)[ra := old(rank)[ra] + 1]
      ensures Roots()[a] == Roots()[b]
    {
      ghost var roots0 := Roots();
      var root1 := Find(a);
      var root2 := Find(b);
      assert Roots() == roots0 && root1 == roots0[a] && root2 == roots0[b];
      if root1 == root2 {
        return false;
      }
      Link(root1, root2);
      return true;
    }
  }
}
