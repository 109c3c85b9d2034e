/** Mapping every element to a sequence and joining the results. */
module Sequences {

  function FlatMap<T, U>(f: T -> seq<U>, xs: seq<T>): seq<U> {
    if xs == [] then [] else f(xs[0]) + FlatMap(f, xs[1..])
  }

  lemma {:induction false} FlatMapAppend<T, U>(f: T -> seq<U>, a: seq<T>, b: seq<T>)
    ensures FlatMap(f, a + b) == FlatMap(f, a) + FlatMap(f, b)
  {
    if a == [] {
      assert a + b == b;
    } else {
      assert (a + b)[1..] == a[1..] + b;
      FlatMapAppend(f, a[1..], b);
    }
  }

  lemma FlatMapSnoc<T, U>(f: T -> seq<U>, a: seq<T>, x: T)
    ensures FlatMap(f, a + [x]) == FlatMap(f, a) + f(x)
  {
    FlatMapAppend(f, a, [x]);
    assert FlatMap(f, [x]) == f(x) + FlatMap(f, []);
  }

  function Concat<T>(pieces: seq<seq<T>>): seq<T> {
    FlatMap((piece: seq<T>) => piece, pieces)
  }

  /** `a` is `b` with some elements left out. */
  ghost predicate Subsequence<T>(a: seq<T>, b: seq<T>) {
    if a == [] then true
    else if b == [] then false
    else
      Subsequence(a, b[..|b| - 1]) ||
      (a[|a| - 1] == b[|b| - 1] && Subsequence(a[..|a| - 1], b[..|b| - 1]))
  }

  lemma SubsequenceSkip<T>(a: seq<T>, b: seq<T>, x: T)
    requires Subsequence(a, b)
    ensures Subsequence(a, b + [x])
  {
    assert (b + [x])[..|b|] == b;
  }

  lemma SubsequenceTake<T>(a: seq<T>, b: seq<T>, x: T)
    requires Subsequence(a, b)
    ensures Subsequence(a + [x], b + [x])
  {
    assert (b + [x])[..|b|] == b && (a + [x])[..|a|] == a;
  }

  lemma {:induction false} SubsequenceTransitive<T>(a: seq<T>, b: seq<T>, c: seq<T>)
    requires Subsequence(a, b) && Subsequence(b, c)
    ensures Subsequence(a, c)
    decreases |c|
  {
    if a != [] {
      var a', b', c' := a[..|a| - 1], b[..|b| - 1], c[..|c| - 1];
      if Subsequence(b, c') {
        SubsequenceTransitive(a, b, c');
      } else if Subsequence(a, b') {
        SubsequenceTransitive(a, b', c');
      } else {
        SubsequenceTransitive(a', b', c');
      }
    }
  }

  lemma {:induction false} SubsequenceItself<T>(a: seq<T>)
    ensures Subsequence(a, a)
  {
    if a != [] { SubsequenceItself(a[..|a| - 1]); }
  }
}
