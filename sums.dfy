/** Finite sums `f(0) + ... + f(n-1)`, and the rearrangements that the polynomial
    product needs: pointwise rewriting, splitting, scaling, exchanging the order of
    a double sum, collapsing a sum with a single non-zero term, and summing modulo
    p. Lambdas are built by named functions so that equal arguments give equal
    terms. */
module Sums {
  import opened Numbers

  function Sum(n: nat, f: nat -> int): int
  {
    if n == 0 then 0 else Sum(n - 1, f) + f(n - 1)
  }

  /** The row `j => g(i, j)` of a two-argument function. */
  function RowOf(g: (nat, nat) -> int, i: nat): nat -> int
  {
    (j: nat) => g(i, j)
  }

  /** `i => g(i, 0) + ... + g(i, m - 1)`: the row sums of `g`. */
  function RowSums(g: (nat, nat) -> int, m: nat): nat -> int
  {
    (i: nat) => Sum(m, RowOf(g, i))
  }

  /** `g` with its arguments exchanged. */
  function Flip(g: (nat, nat) -> int): (nat, nat) -> int
  {
    (j: nat, i: nat) => g(i, j)
  }

  lemma {:induction false} SumExt(n: nat, f: nat -> int, g: nat -> int)
    requires forall i: nat :: i < n ==> f(i) == g(i)
    ensures Sum(n, f) == Sum(n, g)
  {
    if n > 0 {
      SumExt(n - 1, f, g);
    }
  }

  lemma {:induction false} SumOfZeros(n: nat, f: nat -> int)
    requires forall i: nat :: i < n ==> f(i) == 0
    ensures Sum(n, f) == 0
  {
    if n > 0 {
      SumOfZeros(n - 1, f);
    }
  }

  lemma {:induction false} SumAdd(n: nat, f: nat -> int, g: nat -> int, h: nat -> int)
    requires forall i: nat :: i < n ==> h(i) == f(i) + g(i)
    ensures Sum(n, h) == Sum(n, f) + Sum(n, g)
  {
    if n > 0 {
      SumAdd(n - 1, f, g, h);
    }
  }

  lemma {:induction false} SumScale(n: nat, f: nat -> int, c: int, g: nat -> int)
    requires forall i: nat :: i < n ==> g(i) == c * f(i)
    ensures Sum(n, g) == c * Sum(n, f)
  {
    if n > 0 {
      SumScale(n - 1, f, c, g);
      assert c * Sum(n, f) == c * Sum(n - 1, f) + c * f(n - 1);
    }
  }

  /** A sum whose only possibly non-zero term is at `l0` is that term. */
  lemma {:induction false} SumSingle(n: nat, f: nat -> int, l0: nat)
    requires l0 < n
    requires forall i: nat :: i < n && i != l0 ==> f(i) == 0
    ensures Sum(n, f) == f(l0)
  {
    if n - 1 == l0 {
      SumOfZeros(n - 1, f);
    } else {
      SumSingle(n - 1, f, l0);
    }
  }

  /** Sums of termwise congruent values are congruent. */
  lemma {:induction false} SumCongruent(n: nat, f: nat -> int, g: nat -> int, p: int)
    requires p > 0
    requires forall i: nat :: i < n ==> f(i) % p == g(i) % p
    ensures Sum(n, f) % p == Sum(n, g) % p
  {
    if n > 0 {
      SumCongruent(n - 1, f, g, p);
      ModAddCongruent(Sum(n - 1, f), Sum(n - 1, g), f(n - 1), g(n - 1), p);
    }
  }

  /** Exchanging the order of a double sum over [0, n) x [0, m). */
  lemma {:induction false} SumSwap(n: nat, m: nat, g: (nat, nat) -> int)
    ensures Sum(n, RowSums(g, m)) == Sum(m, RowSums(Flip(g), n))
  {
    if n == 0 {
      SumOfZeros(m, RowSums(Flip(g), 0));
    } else {
      SumSwap(n - 1, m, g);
      forall j: nat | j < m
        ensures RowSums(Flip(g), n)(j) == RowSums(Flip(g), n - 1)(j) + RowOf(g, n - 1)(j)
      {
      }
      SumAdd(m, RowSums(Flip(g), n - 1), RowOf(g, n - 1), RowSums(Flip(g), n));
    }
  }
}
