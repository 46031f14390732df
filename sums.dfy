/**
 Finite sums over sequences, the `sum(f(x) for x in xs)` of the source, and the
 algebra the minimum-matches constraints need: splitting a sum, adding two sums
 term by term, exchanging the order of a double sum, and bounding sums of
 non-negative terms.
 */
module Sums {

  /** `f(xs[0]) + f(xs[1]) + ... ` in order; `0.0` for the empty sequence. */
  function Sum<X>(xs: seq<X>, f: X -> real): real
    decreases |xs|
  {
    if xs == [] then 0.0 else f(xs[0]) + Sum(xs[1..], f)
  }

  /** A sum over a concatenation splits into the two partial sums. */
  lemma {:induction false} SumAppend<X>(xs: seq<X>, ys: seq<X>, f: X -> real)
    ensures Sum(xs + ys, f) == Sum(xs, f) + Sum(ys, f)
    decreases |xs|
  {
    if xs == [] {
      assert xs + ys == ys;
    } else {
      assert (xs + ys)[1..] == xs[1..] + ys;
      SumAppend(xs[1..], ys, f);
    }
  }

  /** Sums of two functions that agree on the summed elements are equal. */
  lemma {:induction false} SumCongruence<X>(xs: seq<X>, f: X -> real, g: X -> real)
    requires forall x :: x in xs ==> f(x) == g(x)
    ensures Sum(xs, f) == Sum(xs, g)
    decreases |xs|
  {
    if xs != [] {
      SumCongruence(xs[1..], f, g);
    }
  }

  /** A sum of pointwise sums is the sum of the two sums. */
  lemma {:induction false} SumAdd<X>(xs: seq<X>, f: X -> real, g: X -> real)
    ensures Sum(xs, x => f(x) + g(x)) == Sum(xs, f) + Sum(xs, g)
    decreases |xs|
  {
    if xs != [] {
      SumAdd(xs[1..], f, g);
    }
  }

  /** A sum of zero terms is zero. */
  lemma {:induction false} SumOfZeros<X>(xs: seq<X>, f: X -> real)
    requires forall x :: x in xs ==> f(x) == 0.0
    ensures Sum(xs, f) == 0.0
    decreases |xs|
  {
    if xs != [] {
      SumOfZeros(xs[1..], f);
    }
  }

  /** Sums are monotone in their terms. */
  lemma {:induction false} SumMonotone<X>(xs: seq<X>, f: X -> real, g: X -> real)
    requires forall x :: x in xs ==> f(x) <= g(x)
    ensures Sum(xs, f) <= Sum(xs, g)
    decreases |xs|
  {
    if xs != [] {
      SumMonotone(xs[1..], f, g);
    }
  }

  /** A sum of non-negative terms is non-negative. */
  lemma {:induction false} SumNonNegative<X>(xs: seq<X>, f: X -> real)
    requires forall x :: x in xs ==> 0.0 <= f(x)
    ensures 0.0 <= Sum(xs, f)
    decreases |xs|
  {
    if xs != [] {
      SumNonNegative(xs[1..], f);
    }
  }

  /** A sum of non-negative terms bounds each of its terms. */
  lemma {:induction false} TermAtMostSum<X>(xs: seq<X>, f: X -> real, x: X)
    requires forall z :: z in xs ==> 0.0 <= f(z)
    requires x in xs
    ensures f(x) <= Sum(xs, f)
    decreases |xs|
  {
    if xs[0] == x {
      SumNonNegative(xs[1..], f);
    } else {
      TermAtMostSum(xs[1..], f, x);
    }
  }

  /** A sum of non-negative terms bounds the sum over any prefix. */
  lemma PrefixAtMostSum<X>(xs: seq<X>, f: X -> real, k: nat)
    requires forall z :: z in xs ==> 0.0 <= f(z)
    requires k <= |xs|
    ensures Sum(xs[..k], f) <= Sum(xs, f)
  {
    assert xs == xs[..k] + xs[k..];
    SumAppend(xs[..k], xs[k..], f);
    SumNonNegative(xs[k..], f);
  }

  /** A sum of terms each at most `b` is at most `|xs| * b`. */
  lemma {:induction false} SumAtMost<X>(xs: seq<X>, f: X -> real, b: real)
    requires forall x :: x in xs ==> f(x) <= b
    ensures Sum(xs, f) <= |xs| as real * b
    decreases |xs|
  {
    if xs != [] {
      SumAtMost(xs[1..], f, b);
      assert |xs| as real * b == b + |xs[1..]| as real * b;
    }
  }

  /** The order of a finite double sum can be exchanged. */
  lemma {:induction false} SumSwap<X, Y>(xs: seq<X>, ys: seq<Y>, f: (X, Y) -> real)
    ensures Sum(xs, x => Sum(ys, y => f(x, y))) == Sum(ys, y => Sum(xs, x => f(x, y)))
    decreases |xs|
  {
    if xs == [] {
      SumOfZeros(ys, y => Sum(xs, x => f(x, y)));
    } else {
      var x0, rest := xs[0], xs[1..];
      SumSwap(rest, ys, f);
      var row := y => f(x0, y);
      var tail := y => Sum(rest, x => f(x, y));
      SumCongruence(ys, y => Sum(xs, x => f(x, y)), y => row(y) + tail(y));
      SumAdd(ys, row, tail);
      SumCongruence(ys, y => f(x0, y), row);
    }
  }

  /*
   The exchange lemmas below are stated for a four-argument function that is a
   variable, so that a caller passing its own flow table gets back exactly the
   nested sums it writes itself. Each reorders one pair of adjacent sums.
   */

  lemma SwapSecondThird<A, B, C, D>(a: A, bs: seq<B>, cs: seq<C>, ds: seq<D>, f: (A, B, C, D) -> real)
    ensures Sum(bs, b => Sum(cs, c => Sum(ds, d => f(a, b, c, d))))
         == Sum(cs, c => Sum(bs, b => Sum(ds, d => f(a, b, c, d))))
  {
    var p := (b, c) => Sum(ds, d => f(a, b, c, d));
    SumSwap(bs, cs, p);
    forall b | b in bs ensures Sum(cs, c => p(b, c)) == Sum(cs, c => Sum(ds, d => f(a, b, c, d))) {
      SumCongruence(cs, c => p(b, c), c => Sum(ds, d => f(a, b, c, d)));
    }
    SumCongruence(bs, b => Sum(cs, c => p(b, c)), b => Sum(cs, c => Sum(ds, d => f(a, b, c, d))));
    forall c | c in cs ensures Sum(bs, b => p(b, c)) == Sum(bs, b => Sum(ds, d => f(a, b, c, d))) {
      SumCongruence(bs, b => p(b, c), b => Sum(ds, d => f(a, b, c, d)));
    }
    SumCongruence(cs, c => Sum(bs, b => p(b, c)), c => Sum(bs, b => Sum(ds, d => f(a, b, c, d))));
  }

  lemma SwapSecondFourth<A, B, C, D>(a: A, bs: seq<B>, c: C, ds: seq<D>, f: (A, B, C, D) -> real)
    ensures Sum(bs, b => Sum(ds, d => f(a, b, c, d))) == Sum(ds, d => Sum(bs, b => f(a, b, c, d)))
  {
    var p := (b, d) => f(a, b, c, d);
    SumSwap(bs, ds, p);
    forall b | b in bs ensures Sum(ds, d => p(b, d)) == Sum(ds, d => f(a, b, c, d)) {
      SumCongruence(ds, d => p(b, d), d => f(a, b, c, d));
    }
    SumCongruence(bs, b => Sum(ds, d => p(b, d)), b => Sum(ds, d => f(a, b, c, d)));
    forall d | d in ds ensures Sum(bs, b => p(b, d)) == Sum(bs, b => f(a, b, c, d)) {
      SumCongruence(bs, b => p(b, d), b => f(a, b, c, d));
    }
    SumCongruence(ds, d => Sum(bs, b => p(b, d)), d => Sum(bs, b => f(a, b, c, d)));
  }

  lemma SwapFirstThird<A, B, C, D>(ws: seq<A>, bs: seq<B>, cs: seq<C>, ds: seq<D>, f: (A, B, C, D) -> real)
    ensures Sum(ws, a => Sum(cs, c => Sum(ds, d => Sum(bs, b => f(a, b, c, d)))))
         == Sum(cs, c => Sum(ws, a => Sum(ds, d => Sum(bs, b => f(a, b, c, d)))))
  {
    var p := (a, c) => Sum(ds, d => Sum(bs, b => f(a, b, c, d)));
    SumSwap(ws, cs, p);
    forall a | a in ws ensures Sum(cs, c => p(a, c)) == Sum(cs, c => Sum(ds, d => Sum(bs, b => f(a, b, c, d)))) {
      SumCongruence(cs, c => p(a, c), c => Sum(ds, d => Sum(bs, b => f(a, b, c, d))));
    }
    SumCongruence(ws, a => Sum(cs, c => p(a, c)), a => Sum(cs, c => Sum(ds, d => Sum(bs, b => f(a, b, c, d)))));
    forall c | c in cs ensures Sum(ws, a => p(a, c)) == Sum(ws, a => Sum(ds, d => Sum(bs, b => f(a, b, c, d)))) {
      SumCongruence(ws, a => p(a, c), a => Sum(ds, d => Sum(bs, b => f(a, b, c, d))));
    }
    SumCongruence(cs, c => Sum(ws, a => p(a, c)), c => Sum(ws, a => Sum(ds, d => Sum(bs, b => f(a, b, c, d)))));
  }

  lemma SwapFirstFourth<A, B, C, D>(ws: seq<A>, bs: seq<B>, c: C, ds: seq<D>, f: (A, B, C, D) -> real)
    ensures Sum(ws, a => Sum(ds, d => Sum(bs, b => f(a, b, c, d))))
         == Sum(ds, d => Sum(ws, a => Sum(bs, b => f(a, b, c, d))))
  {
    var p := (a, d) => Sum(bs, b => f(a, b, c, d));
    SumSwap(ws, ds, p);
    forall a | a in ws ensures Sum(ds, d => p(a, d)) == Sum(ds, d => Sum(bs, b => f(a, b, c, d))) {
      SumCongruence(ds, d => p(a, d), d => Sum(bs, b => f(a, b, c, d)));
    }
    SumCongruence(ws, a => Sum(ds, d => p(a, d)), a => Sum(ds, d => Sum(bs, b => f(a, b, c, d))));
    forall d | d in ds ensures Sum(ws, a => p(a, d)) == Sum(ws, a => Sum(bs, b => f(a, b, c, d))) {
      SumCongruence(ws, a => p(a, d), a => Sum(bs, b => f(a, b, c, d)));
    }
    SumCongruence(ds, d => Sum(ws, a => p(a, d)), d => Sum(ws, a => Sum(bs, b => f(a, b, c, d))));
  }

  /**
   A four-fold sum can be taken with its last two indices outermost: summing
   f(a, b, c, d) row by row over (a, b) gives the same total as summing it
   column by column over (c, d).
   */
  lemma Exchange<A, B, C, D>(ws: seq<A>, bs: seq<B>, cs: seq<C>, ds: seq<D>, f: (A, B, C, D) -> real)
    ensures Sum(ws, a => Sum(bs, b => Sum(cs, c => Sum(ds, d => f(a, b, c, d)))))
         == Sum(cs, c => Sum(ds, d => Sum(ws, a => Sum(bs, b => f(a, b, c, d)))))
  {
    forall a | a in ws
      ensures Sum(bs, b => Sum(cs, c => Sum(ds, d => f(a, b, c, d))))
           == Sum(cs, c => Sum(ds, d => Sum(bs, b => f(a, b, c, d))))
    {
      SwapSecondThird(a, bs, cs, ds, f);
      forall c | c in cs
        ensures Sum(bs, b => Sum(ds, d => f(a, b, c, d))) == Sum(ds, d => Sum(bs, b => f(a, b, c, d)))
      {
        SwapSecondFourth(a, bs, c, ds, f);
      }
      SumCongruence(cs, c => Sum(bs, b => Sum(ds, d => f(a, b, c, d))),
                        c => Sum(ds, d => Sum(bs, b => f(a, b, c, d))));
    }
    SumCongruence(ws, a => Sum(bs, b => Sum(cs, c => Sum(ds, d => f(a, b, c, d)))),
                      a => Sum(cs, c => Sum(ds, d => Sum(bs, b => f(a, b, c, d)))));
    SwapFirstThird(ws, bs, cs, ds, f);
    forall c | c in cs
      ensures Sum(ws, a => Sum(ds, d => Sum(bs, b => f(a, b, c, d))))
           == Sum(ds, d => Sum(ws, a => Sum(bs, b => f(a, b, c, d))))
    {
      SwapFirstFourth(ws, bs, c, ds, f);
    }
    SumCongruence(cs, c => Sum(ws, a => Sum(ds, d => Sum(bs, b => f(a, b, c, d)))),
                      c => Sum(ds, d => Sum(ws, a => Sum(bs, b => f(a, b, c, d)))));
  }
}
