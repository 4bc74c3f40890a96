/** The first index of an element, and the iterator shapes the source builds its lists
    with: `flat_map`/`extend` in a loop (`ConcatMap`) and `filter` or a conditional `push`
    in a loop (`Filter`). Both shapes are defined from the back, the way a loop that appends
    sees them grow. */
module Seqs {

  /** The index of the first occurrence of `x` in `s`. */
  function IndexOf<T(==)>(s: seq<T>, x: T): (i: nat)
    requires x in s
    ensures i < |s| && s[i] == x && x !in s[..i]
  {
    if s[0] == x then 0 else 1 + IndexOf(s[1..], x)
  }

  /** An index holding `x` with no `x` before it is the first index of `x`. */
  lemma IndexOfUnique<T>(s: seq<T>, x: T, i: nat)
    requires i < |s| && s[i] == x && x !in s[..i]
    ensures IndexOf(s, x) == i
  {
  }

  function ConcatMap<T, U>(f: T -> seq<U>, xs: seq<T>): seq<U> {
    if xs == [] then [] else ConcatMap(f, xs[..|xs| - 1]) + f(xs[|xs| - 1])
  }

  /** Concatenation is mapped to concatenation: each part keeps its place and its order. */
  lemma {:induction false} ConcatMapAppend<T, U>(f: T -> seq<U>, a: seq<T>, b: seq<T>)
    ensures ConcatMap(f, a + b) == ConcatMap(f, a) + ConcatMap(f, b)
    decreases |b|
  {
    if b == [] {
      assert a + b == a;
    } else {
      ConcatMapAppend(f, a, b[..|b| - 1]);
      assert (a + b)[..|a + b| - 1] == a + b[..|b| - 1];
    }
  }

  lemma ConcatMapSingle<T, U>(f: T -> seq<U>, x: T)
    ensures ConcatMap(f, [x]) == f(x)
  {
    assert [x][..0] == [];
  }

  /** The first input contributes first. */
  lemma ConcatMapCons<T, U>(f: T -> seq<U>, x: T, xs: seq<T>)
    ensures ConcatMap(f, [x] + xs) == f(x) + ConcatMap(f, xs)
  {
    ConcatMapAppend(f, [x], xs);
    assert [x][..0] == [];
  }

  /** An element of the result comes from some input, and every input contributes all of its own. */
  lemma {:induction false} ConcatMapMembers<T, U>(f: T -> seq<U>, xs: seq<T>, y: U)
    ensures y in ConcatMap(f, xs) <==> exists i :: 0 <= i < |xs| && y in f(xs[i])
  {
    if xs != [] {
      var front := xs[..|xs| - 1];
      ConcatMapMembers(f, front, y);
      if y in ConcatMap(f, front) {
        var i :| 0 <= i < |front| && y in f(front[i]);
        assert xs[i] == front[i];
      }
      if exists i :: 0 <= i < |xs| && y in f(xs[i]) {
        var i :| 0 <= i < |xs| && y in f(xs[i]);
        if i < |front| {
          assert xs[i] == front[i];
        }
      }
    }
  }

  /** When every input contributes at most one element, the result is no longer than the input. */
  lemma {:induction false} ConcatMapShorter<T, U>(f: T -> seq<U>, xs: seq<T>)
    requires forall x :: x in xs ==> |f(x)| <= 1
    ensures |ConcatMap(f, xs)| <= |xs|
  {
    if xs != [] {
      ConcatMapShorter(f, xs[..|xs| - 1]);
      assert xs[|xs| - 1] in xs;
    }
  }

  function Filter<T>(p: T -> bool, xs: seq<T>): seq<T> {
    if xs == [] then [] else Filter(p, xs[..|xs| - 1]) + (if p(xs[|xs| - 1]) then [xs[|xs| - 1]] else [])
  }

  /** The filter keeps exactly the inputs that satisfy the predicate, never more than it got. */
  lemma {:induction false} FilterMembers<T>(p: T -> bool, xs: seq<T>, x: T)
    ensures x in Filter(p, xs) <==> x in xs && p(x)
    ensures |Filter(p, xs)| <= |xs|
  {
    if xs != [] {
      var front := xs[..|xs| - 1];
      FilterMembers(p, front, x);
      assert xs == front + [xs[|xs| - 1]];
    }
  }

  lemma FilterSingle<T>(p: T -> bool, x: T)
    ensures Filter(p, [x]) == if p(x) then [x] else []
  {
    assert [x][..0] == [];
  }

  /** The filter keeps order: it maps concatenation to concatenation. */
  lemma {:induction false} FilterAppend<T>(p: T -> bool, a: seq<T>, b: seq<T>)
    ensures Filter(p, a + b) == Filter(p, a) + Filter(p, b)
    decreases |b|
  {
    if b == [] {
      assert a + b == a;
    } else {
      FilterAppend(p, a, b[..|b| - 1]);
      assert (a + b)[..|a + b| - 1] == a + b[..|b| - 1];
    }
  }
}
