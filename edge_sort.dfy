/** Sorting edges by weight, as `edges.sort((a, b) => a.weight - b.weight)`
    does in public/index.js (lines 373 and 425). The JavaScript sort is
    stable, so edges of equal weight keep their relative order; the model is
    a stable insertion sort proved sorted, a permutation, and stable. */
module EdgeSort {
  import opened Graphs

  /** Weights never decrease along `s`. */
  ghost predicate SortedByWeight(s: seq<Edge>)
  {
    forall i, j :: 0 <= i < j < |s| ==> s[i].weight <= s[j].weight
  }

  /** The edges of `s` that have weight `w`, in their order in `s`. */
  function OfWeight(s: seq<Edge>, w: nat): seq<Edge>
  {
    if s == [] then []
    else OfWeight(s[..|s| - 1], w) + (if s[|s| - 1].weight == w then [s[|s| - 1]] else [])
  }

  /** Selecting by weight distributes over concatenation. */
  lemma {:induction false} OfWeightAppend(a: seq<Edge>, b: seq<Edge>, w: nat)
    ensures OfWeight(a + b, w) == OfWeight(a, w) + OfWeight(b, w)
  {
    if b != [] {
      var b' := b[..|b| - 1];
      assert (a + b)[..|a + b| - 1] == a + b';
      OfWeightAppend(a, b', w);
    } else {
      assert a + b == a;
    }
  }

  /** Inserts `e` into `s` after the trailing edges that are not heavier. */
  function Insert(s: seq<Edge>, e: Edge): seq<Edge>
  {
    if s == [] || s[|s| - 1].weight <= e.weight then s + [e]
    else Insert(s[..|s| - 1], e) + [s[|s| - 1]]
  }

  /** Insertion adds exactly `e`. */
  lemma {:induction false} InsertPerm(s: seq<Edge>, e: Edge)
    ensures multiset(Insert(s, e)) == multiset(s) + multiset{e}
  {
    if !(s == [] || s[|s| - 1].weight <= e.weight) {
      assert s == s[..|s| - 1] + [s[|s| - 1]];
      InsertPerm(s[..|s| - 1], e);
    }
  }

  /** Insertion into a sorted sequence keeps it sorted. */
  lemma {:induction false} InsertSorted(s: seq<Edge>, e: Edge)
    requires SortedByWeight(s)
    ensures SortedByWeight(Insert(s, e))
  {
    if !(s == [] || s[|s| - 1].weight <= e.weight) {
      var p, x := s[..|s| - 1], s[|s| - 1];
      assert s == p + [x];
      InsertSorted(p, e);
      InsertPerm(p, e);
      var q := Insert(p, e);
      forall i | 0 <= i < |q|
        ensures q[i].weight <= x.weight
      {
        assert q[i] in multiset(q);
      }
      SortedSnoc(q, x);
    }
  }

  /** Appending an edge no lighter than all others keeps a sequence sorted. */
  lemma SortedSnoc(q: seq<Edge>, x: Edge)
    requires SortedByWeight(q)
    requires forall i :: 0 <= i < |q| ==> q[i].weight <= x.weight
    ensures SortedByWeight(q + [x])
  {
  }

  /** Insertion places `e` after every edge of its own weight. */
  lemma {:induction false} InsertStable(s: seq<Edge>, e: Edge, w: nat)
    ensures OfWeight(Insert(s, e), w) == OfWeight(s, w) + (if e.weight == w then [e] else [])
  {
    if s == [] || s[|s| - 1].weight <= e.weight {
      assert (s + [e])[..|s|] == s;
    } else {
      var p, x := s[..|s| - 1], s[|s| - 1];
      InsertStable(p, e, w);
      var q := Insert(p, e);
      assert (q + [x])[..|q|] == q;
    }
  }

  /** The stable sort of `s` by weight. */
  function SortByWeight(s: seq<Edge>): (r: seq<Edge>)
    ensures SortedByWeight(r)
    ensures multiset(r) == multiset(s)
    ensures |r| == |s|
    ensures forall w :: OfWeight(r, w) == OfWeight(s, w)
  {
    if s == [] then []
    else
      var p, x := s[..|s| - 1], s[|s| - 1];
      assert s == p + [x];
      var q := SortByWeight(p);
      InsertSorted(q, x);
      InsertPerm(q, x);
      assert forall w :: OfWeight(Insert(q, x), w) == OfWeight(s, w) by {
        forall w ensures OfWeight(Insert(q, x), w) == OfWeight(s, w) {
          InsertStable(q, x, w);
        }
      }
      var r := Insert(q, x);
      assert |r| == |multiset(r)|;
      r
  }

  /** The sorted edges are the edges of the input. */
  lemma SortedMembers(s: seq<Edge>, e: Edge)
    ensures e in SortByWeight(s) <==> e in s
  {
    assert e in SortByWeight(s) <==> e in multiset(SortByWeight(s));
    assert e in s <==> e in multiset(s);
  }
}
