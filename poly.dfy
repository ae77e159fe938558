/** `polyMult` (aks2.py): multiplication in Z_p[x]/(x^r - 1) on dense coefficient
    lists. Index i holds the coefficient of x^i; the product wraps exponents modulo r
    and reduces every coefficient modulo p. The inputs may have any length; the
    output always has length r. */
module Poly {
  import opened Numbers
  import opened Sums

  /** The contribution of `a[i] * b[j]` to coefficient k of the product: non-zero
      only when `(i + j) % r == k`. */
  function Term(a: seq<int>, b: seq<int>, r: nat, k: nat): (nat, nat) -> int
    requires r > 0
  {
    (i: nat, j: nat) => if i < |a| && j < |b| && (i + j) % r == k then a[i] * b[j] else 0
  }

  /** The sum of `a[i] * b[j]` over all pairs with `(i + j) % r == k`, unreduced. */
  function Coef(a: seq<int>, b: seq<int>, r: nat, k: nat): int
    requires r > 0
  {
    Sum(|a|, RowSums(Term(a, b, r, k), |b|))
  }

  /** The product of `a` and `b` in Z_p[x]/(x^r - 1): entry k is `Coef(a, b, r, k) % p`. */
  function Mul(a: seq<int>, b: seq<int>, r: nat, p: nat): (c: seq<int>)
    requires r > 0 && p > 0
    ensures IsReduced(c, r, p)
  {
    seq(r, k requires 0 <= k < r => Coef(a, b, r, k) % p)
  }

  /** A coefficient list of length r with every entry in [0, p). */
  predicate IsReduced(x: seq<int>, r: nat, p: nat)
  {
    |x| == r && forall k :: 0 <= k < r ==> 0 <= x[k] < p
  }

  /** One step of the inner loop of `polyMult`: entry `(i + j) % r` takes in
      `a[i] * b[j]`, every other entry keeps its value. */
  lemma AccumulateStep(a: seq<int>, b: seq<int>, r: nat, p: nat, i: nat, j: nat, k: nat, before: int, after: int)
    requires r > 0 && p > 0 && i < |a| && j < |b| && k < r
    requires before == (Sum(i, RowSums(Term(a, b, r, k), |b|)) + Sum(j, RowOf(Term(a, b, r, k), i))) % p
    requires after == if k == (i + j) % r then (before + a[i] * b[j]) % p else before
    ensures after == (Sum(i, RowSums(Term(a, b, r, k), |b|)) + Sum(j + 1, RowOf(Term(a, b, r, k), i))) % p
  {
    var T := Term(a, b, r, k);
    var s := Sum(i, RowSums(T, |b|)) + Sum(j, RowOf(T, i));
    assert Sum(j + 1, RowOf(T, i)) == Sum(j, RowOf(T, i)) + T(i, j);
    if k == (i + j) % r {
      assert T(i, j) == a[i] * b[j];
      ModAddLeft(s, a[i] * b[j], p);
    } else {
      assert T(i, j) == 0;
    }
  }

  /** A finished inner loop adds one whole row to the double sum. */
  lemma RowDone(g: (nat, nat) -> int, m: nat, i: nat)
    ensures Sum(i + 1, RowSums(g, m)) == Sum(i, RowSums(g, m)) + Sum(m, RowOf(g, i))
  {
  }

  /** The state of `res` in `polyMult` once rows [0, i) of a and the first j entries
      of row i are added in: every entry k holds the sum of those pairs' contributions
      to coefficient k, reduced modulo p. */
  ghost predicate Partial(s: seq<int>, a: seq<int>, b: seq<int>, r: nat, p: nat, i: nat, j: nat)
    requires r > 0 && p > 0
  {
    |s| == r &&
    forall k :: 0 <= k < r ==>
      s[k] == (Sum(i, RowSums(Term(a, b, r, k), |b|)) + Sum(j, RowOf(Term(a, b, r, k), i))) % p
  }

  /** The inner step `res[idx] = (res[idx] + u * v) % p` keeps `Partial`, one column on. */
  lemma AccumulateAll(a: seq<int>, b: seq<int>, r: nat, p: nat, i: nat, j: nat, s: seq<int>, s2: seq<int>)
    requires r > 0 && p > 0 && i < |a| && j < |b| && Partial(s, a, b, r, p, i, j)
    requires s2 == s[(i + j) % r := (s[(i + j) % r] + a[i] * b[j]) % p]
    ensures Partial(s2, a, b, r, p, i, j + 1)
  {
    forall k | 0 <= k < r
      ensures s2[k] == (Sum(i, RowSums(Term(a, b, r, k), |b|)) + Sum(j + 1, RowOf(Term(a, b, r, k), i))) % p
    {
      AccumulateStep(a, b, r, p, i, j, k, s[k], s2[k]);
    }
  }

  /** A finished row of the outer loop: `Partial` moves on to the next row. */
  lemma RowsDone(a: seq<int>, b: seq<int>, r: nat, p: nat, i: nat, s: seq<int>)
    requires r > 0 && p > 0 && Partial(s, a, b, r, p, i, |b|)
    ensures Partial(s, a, b, r, p, i + 1, 0)
  {
    forall k | 0 <= k < r
      ensures s[k] == (Sum(i + 1, RowSums(Term(a, b, r, k), |b|)) + Sum(0, RowOf(Term(a, b, r, k), i + 1))) % p
    {
      RowDone(Term(a, b, r, k), |b|, i);
    }
  }

  /** After all rows, `Partial` is the product. */
  lemma AllRowsDone(a: seq<int>, b: seq<int>, r: nat, p: nat, s: seq<int>)
    requires r > 0 && p > 0 && Partial(s, a, b, r, p, |a|, 0)
    ensures s == Mul(a, b, r, p)
  {
  }

  /** `polyMult(a, b, r, p)`: `res` starts as r zeros, and for every pair (i, j), in
      the order of the two `enumerate` loops, `res[(i + j) % r]` becomes
      `(res[(i + j) % r] + a[i] * b[j]) % p`. Reducing after every step gives the same
      entries as reducing the whole sum once. */
  method PolyMult(a: seq<int>, b: seq<int>, r: nat, p: nat) returns (res: seq<int>)
    requires r > 0 && p > 0
    ensures res == Mul(a, b, r, p)
    ensures IsReduced(res, r, p)
  {
    var buf := new int[r](_ => 0);
    for i := 0 to |a|
      invariant Partial(buf[..], a, b, r, p, i, 0)
    {
      for j := 0 to |b|
        invariant Partial(buf[..], a, b, r, p, i, j)
      {
        var idx := (i + j) % r;
        ghost var before := buf[..];
        buf[idx] := (buf[idx] + a[i] * b[j]) % p;
        AccumulateAll(a, b, r, p, i, j, before, buf[..]);
      }
      RowsDone(a, b, r, p, i, buf[..]);
    }
    AllRowsDone(a, b, r, p, buf[..]);
    res := buf[..];
  }

  /** Each pair (i, j) contributes the same to `Coef(a, b)` and `Coef(b, a)`. */
  lemma CoefCommutes(a: seq<int>, b: seq<int>, r: nat, k: nat)
    requires r > 0
    ensures Coef(a, b, r, k) == Coef(b, a, r, k)
  {
    var tab, tba := Term(a, b, r, k), Term(b, a, r, k);
    SumSwap(|a|, |b|, tab);
    forall j: nat | j < |b|
      ensures RowSums(Flip(tab), |a|)(j) == RowSums(tba, |a|)(j)
    {
      SumExt(|a|, RowOf(Flip(tab), j), RowOf(tba, j));
    }
    SumExt(|b|, RowSums(Flip(tab), |a|), RowSums(tba, |a|));
  }

  /** `polyMult(a, b, r, p) == polyMult(b, a, r, p)`. */
  lemma MulCommutes(a: seq<int>, b: seq<int>, r: nat, p: nat)
    requires r > 0 && p > 0
    ensures Mul(a, b, r, p) == Mul(b, a, r, p)
  {
    forall k | 0 <= k < r
      ensures Mul(a, b, r, p)[k] == Mul(b, a, r, p)[k]
    {
      CoefCommutes(a, b, r, k);
    }
  }

  /** Coefficient k of `[1]` times `z` is `z[k]`. */
  lemma CoefOneLeft(z: seq<int>, r: nat, k: nat)
    requires r > 0 && |z| == r && k < r
    ensures Coef([1], z, r, k) == z[k]
  {
    var t := Term([1], z, r, k);
    forall j: nat | j < r && j != k
      ensures RowOf(t, 0)(j) == 0
    {
      assert (0 + j) % r == j;
    }
    assert (0 + k) % r == k;
    assert RowOf(t, 0)(k) == z[k];
    SumSingle(r, RowOf(t, 0), k);
    assert Coef([1], z, r, k) == Sum(1, RowSums(t, r)) == Sum(r, RowOf(t, 0));
  }

  /** `[1]` is a unit on reduced lists: multiplying by it changes nothing. */
  lemma MulOneLeft(z: seq<int>, r: nat, p: nat)
    requires r > 0 && p > 0 && IsReduced(z, r, p)
    ensures Mul([1], z, r, p) == z
  {
    var m := Mul([1], z, r, p);
    forall k | 0 <= k < r
      ensures m[k] == z[k]
    {
      CoefOneLeft(z, r, k);
      ModOfSmall(z[k], p);
    }
    assert |m| == |z|;
  }
}
