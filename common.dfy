/** Values shared by every part of the model: node identifiers, optional
    values, load errors, and the distances/priorities of the algorithms,
    which are non-negative numbers extended with an "unreached" value that
    plays the part of JavaScript's `Infinity`. */
module Common {

  /** Node identifiers are opaque keys; naturals stand for the id strings. */
  type NodeId = nat

  datatype Option<T> = None | Some(value: T)

  /** The outcome of an operation that rejects an unknown node id. */
  datatype Result<T> = Ok(value: T) | UnknownNode(id: NodeId)

  /** A distance or a priority: a finite non-negative number, or `Inf`. */
  datatype Dist = Fin(n: nat) | Inf

  /** The JavaScript `<` on numbers that may be `Infinity`:
      `Infinity < Infinity` is false, and nothing is below zero. */
  predicate Less(a: Dist, b: Dist)
  {
    match (a, b)
    case (Fin(x), Fin(y)) => x < y
    case (Fin(_), Inf) => true
    case (Inf, _) => false
  }

  /** `a <= b`, the complement of `b < a`. */
  predicate Le(a: Dist, b: Dist)
  {
    !Less(b, a)
  }

  /** The JavaScript `d + w` for a non-negative weight `w`:
      `Infinity + w` is `Infinity`. */
  function Add(d: Dist, w: nat): (r: Dist)
    ensures r.Inf? <==> d.Inf?
    ensures Le(d, r)
  {
    match d
    case Fin(x) => Fin(x + w)
    case Inf => Inf
  }

  /** The set of elements of a sequence. */
  function Elems<T>(s: seq<T>): set<T>
  {
    set x | x in s
  }

  /** No element occurs twice. */
  ghost predicate Distinct<T>(s: seq<T>)
  {
    forall i, j :: 0 <= i < j < |s| ==> s[i] != s[j]
  }

  /** A sequence without repetitions has as many elements as its set. */
  lemma {:induction false} DistinctCard<T>(s: seq<T>)
    requires Distinct(s)
    ensures |Elems(s)| == |s|
  {
    if s != [] {
      var t := s[..|s| - 1];
      assert Distinct(t);
      DistinctCard(t);
      assert s == t + [s[|s| - 1]];
      assert Elems(s) == Elems(t) + {s[|s| - 1]};
      assert s[|s| - 1] !in Elems(t);
    }
  }

  /** A subset as large as a finite set is the set itself. */
  lemma SubsetFull<T>(a: set<T>, b: set<T>)
    requires a <= b && |a| == |b|
    ensures a == b
  {
    var rest := b - a;
    assert b == a + rest && a * rest == {};
    assert |rest| == 0;
    assert rest == {};
  }
}
