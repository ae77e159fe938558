/** Algebra of `Poly.Mul`: associativity, a unit, and powers. These are what make
    the square-and-multiply loop of `is_congruent` compute `[a, 1]^p`.

    Associativity goes through triple sums: coefficient k of `x * (y * z)` is,
    modulo p, the sum of `x[i] * y[j] * z[m]` over all (i, j, m) with
    `(i + j + m) % r == k`, and that triple sum is unchanged by rotating the three
    factors. */
module PolyAlgebra {
  import opened Numbers
  import opened Sums
  import opened Poly

  /** The contribution of `x[i] * y[j] * z[m]` to coefficient k of a threefold product. */
  function Cube(x: seq<int>, y: seq<int>, z: seq<int>, r: nat, k: nat): (nat, nat, nat) -> int
    requires r > 0
  {
    (i: nat, j: nat, m: nat) =>
      if i < |x| && j < |y| && m < |z| && (i + j + m) % r == k then x[i] * y[j] * z[m] else 0
  }

  /** `(j, m) => F(i, j, m)`. */
  function Slice1(F: (nat, nat, nat) -> int, i: nat): (nat, nat) -> int
  {
    (j: nat, m: nat) => F(i, j, m)
  }

  /** `(i, m) => F(i, j, m)`. */
  function Slice2(F: (nat, nat, nat) -> int, j: nat): (nat, nat) -> int
  {
    (i: nat, m: nat) => F(i, j, m)
  }

  /** `i => sum over j < n2, m < n3 of F(i, j, m)`. */
  function Layer(F: (nat, nat, nat) -> int, n2: nat, n3: nat): nat -> int
  {
    (i: nat) => Sum(n2, RowSums(Slice1(F, i), n3))
  }

  /** The sum of F over [0, n1) x [0, n2) x [0, n3). */
  function TripleSum(F: (nat, nat, nat) -> int, n1: nat, n2: nat, n3: nat): int
  {
    Sum(n1, Layer(F, n2, n3))
  }

  /** F with its first argument moved to the end. */
  function Rot(F: (nat, nat, nat) -> int): (nat, nat, nat) -> int
  {
    (j: nat, m: nat, i: nat) => F(i, j, m)
  }

  /** `(i, j) => sum over m < n3 of F(i, j, m)`. */
  function Inner(F: (nat, nat, nat) -> int, n3: nat): (nat, nat) -> int
  {
    (i: nat, j: nat) => Sum(n3, RowOf(Slice1(F, i), j))
  }

  lemma SumExt2(n: nat, m: nat, g: (nat, nat) -> int, h: (nat, nat) -> int)
    requires forall i: nat, j: nat :: i < n && j < m ==> g(i, j) == h(i, j)
    ensures Sum(n, RowSums(g, m)) == Sum(n, RowSums(h, m))
  {
    forall i: nat | i < n
      ensures RowSums(g, m)(i) == RowSums(h, m)(i)
    {
      SumExt(m, RowOf(g, i), RowOf(h, i));
    }
    SumExt(n, RowSums(g, m), RowSums(h, m));
  }

  lemma TripleExt(F: (nat, nat, nat) -> int, G: (nat, nat, nat) -> int, n1: nat, n2: nat, n3: nat)
    requires forall i: nat, j: nat, m: nat :: i < n1 && j < n2 && m < n3 ==> F(i, j, m) == G(i, j, m)
    ensures TripleSum(F, n1, n2, n3) == TripleSum(G, n1, n2, n3)
  {
    forall i: nat | i < n1
      ensures Layer(F, n2, n3)(i) == Layer(G, n2, n3)(i)
    {
      SumExt2(n2, n3, Slice1(F, i), Slice1(G, i));
    }
    SumExt(n1, Layer(F, n2, n3), Layer(G, n2, n3));
  }

  /** After the outer exchange, the slice for a fixed j is a layer of the rotated sum. */
  lemma RotateLayer(F: (nat, nat, nat) -> int, n1: nat, n3: nat, j: nat)
    ensures RowSums(Flip(Inner(F, n3)), n1)(j) == Layer(Rot(F), n3, n1)(j)
  {
    var H := Slice2(F, j);
    forall i: nat | i < n1
      ensures RowOf(Flip(Inner(F, n3)), j)(i) == RowSums(H, n3)(i)
    {
      SumExt(n3, RowOf(Slice1(F, i), j), RowOf(H, i));
    }
    SumExt(n1, RowOf(Flip(Inner(F, n3)), j), RowSums(H, n3));
    SumSwap(n1, n3, H);
    SumExt2(n3, n1, Flip(H), Slice1(Rot(F), j));
  }

  /** A triple sum can be taken in the order (j, m, i) instead of (i, j, m). */
  lemma TripleRotate(F: (nat, nat, nat) -> int, n1: nat, n2: nat, n3: nat)
    ensures TripleSum(F, n1, n2, n3) == TripleSum(Rot(F), n2, n3, n1)
  {
    var G := Inner(F, n3);
    forall i: nat | i < n1
      ensures Layer(F, n2, n3)(i) == RowSums(G, n2)(i)
    {
      SumExt(n2, RowSums(Slice1(F, i), n3), RowOf(G, i));
    }
    SumExt(n1, Layer(F, n2, n3), RowSums(G, n2));
    SumSwap(n1, n2, G);
    forall j: nat | j < n2
      ensures RowSums(Flip(G), n1)(j) == Layer(Rot(F), n3, n1)(j)
    {
      RotateLayer(F, n1, n3, j);
    }
    SumExt(n2, RowSums(Flip(G), n1), Layer(Rot(F), n3, n1));
  }

  /** For `0 <= k < r`, `(i + J) % r == k` says the same as `J % r == (k - i) % r`. */
  lemma ModShift(i: int, J: int, k: nat, r: nat)
    requires r > 0 && k < r
    ensures (i + J) % r == k <==> J % r == (k - i) % r
  {
    var D := i + J - k;
    assert J - (k - i) == D;
    ModOfSmall(k, r);
    if (i + J) % r == k {
      ModSub(i + J, k, r);
      ModEqFromDiff(J, k - i, r);
    }
    if J % r == (k - i) % r {
      ModSub(J, k - i, r);
      ModEqFromDiff(i + J, k, r);
    }
  }

  /** In row i of a product only column `(k - i) % r` among [0, r) lands on index k. */
  lemma RowColumn(r: nat, k: nat, i: nat, j: nat)
    requires r > 0 && k < r && j < r
    ensures (i + j) % r == k <==> j == (k - i) % r
  {
    assert j % r == j;
    ModShift(i, j, k, r);
  }

  /** Row i of the product with a reduced right factor Y has one term: `x[i] * Y[(k - i) % r]`. */
  lemma RowAgainstReduced(x: seq<int>, Y: seq<int>, r: nat, k: nat, i: nat)
    requires r > 0 && |Y| == r && k < r && i < |x|
    ensures RowSums(Term(x, Y, r, k), r)(i) == x[i] * Y[(k - i) % r]
  {
    var l0: nat := (k - i) % r;
    var f := RowOf(Term(x, Y, r, k), i);
    forall j: nat | j < r && j != l0
      ensures f(j) == 0
    {
      RowColumn(r, k, i, j);
    }
    RowColumn(r, k, i, l0);
    SumSingle(r, f, l0);
  }

  /** Layer i of the triple sum is `x[i]` times coefficient `(k - i) % r` of `y * z`. */
  lemma LayerOfCube(x: seq<int>, y: seq<int>, z: seq<int>, r: nat, k: nat, i: nat)
    requires r > 0 && k < r && i < |x|
    ensures Layer(Cube(x, y, z, r, k), |y|, |z|)(i) == x[i] * Coef(y, z, r, (k - i) % r)
  {
    var T := Term(y, z, r, (k - i) % r);
    var S := Slice1(Cube(x, y, z, r, k), i);
    forall j: nat, m: nat | j < |y| && m < |z|
      ensures S(j, m) == x[i] * T(j, m)
    {
      ModShift(i, j + m, k, r);
      assert i + j + m == i + (j + m);
      assert x[i] * y[j] * z[m] == x[i] * (y[j] * z[m]);
    }
    forall j: nat | j < |y|
      ensures RowSums(S, |z|)(j) == x[i] * RowSums(T, |z|)(j)
    {
      SumScale(|z|, RowOf(T, j), x[i], RowOf(S, j));
    }
    SumScale(|y|, RowSums(T, |z|), x[i], RowSums(S, |z|));
  }

  /** Coefficient k of `x * (y * z)`, before reduction, is congruent to the triple sum. */
  lemma CoefOfProductRight(x: seq<int>, y: seq<int>, z: seq<int>, r: nat, p: nat, k: nat)
    requires r > 0 && p > 0 && k < r
    ensures Coef(x, Mul(y, z, r, p), r, k) % p == TripleSum(Cube(x, y, z, r, k), |x|, |y|, |z|) % p
  {
    var Y := Mul(y, z, r, p);
    forall i: nat | i < |x|
      ensures RowSums(Term(x, Y, r, k), r)(i) % p == Layer(Cube(x, y, z, r, k), |y|, |z|)(i) % p
    {
      var c := Coef(y, z, r, (k - i) % r);
      RowAgainstReduced(x, Y, r, k, i);
      LayerOfCube(x, y, z, r, k, i);
      ModMulLeft(c, x[i], p);
      assert x[i] * (c % p) == (c % p) * x[i] && x[i] * c == c * x[i];
    }
    SumCongruent(|x|, RowSums(Term(x, Y, r, k), r), Layer(Cube(x, y, z, r, k), |y|, |z|), p);
  }

  /** The triple sum for (c, a, b) equals the one for (a, b, c). */
  lemma CubeRotates(a: seq<int>, b: seq<int>, c: seq<int>, r: nat, k: nat)
    requires r > 0
    ensures TripleSum(Cube(c, a, b, r, k), |c|, |a|, |b|) == TripleSum(Cube(a, b, c, r, k), |a|, |b|, |c|)
  {
    TripleRotate(Cube(c, a, b, r, k), |c|, |a|, |b|);
    forall i: nat, j: nat, m: nat | i < |a| && j < |b| && m < |c|
      ensures Rot(Cube(c, a, b, r, k))(i, j, m) == Cube(a, b, c, r, k)(i, j, m)
    {
      assert m + i + j == i + j + m;
      assert c[m] * a[i] * b[j] == a[i] * b[j] * c[m];
    }
    TripleExt(Rot(Cube(c, a, b, r, k)), Cube(a, b, c, r, k), |a|, |b|, |c|);
  }

  /** `polyMult` is associative. */
  lemma MulAssociates(a: seq<int>, b: seq<int>, c: seq<int>, r: nat, p: nat)
    requires r > 0 && p > 0
    ensures Mul(Mul(a, b, r, p), c, r, p) == Mul(a, Mul(b, c, r, p), r, p)
  {
    MulCommutes(Mul(a, b, r, p), c, r, p);
    forall k | 0 <= k < r
      ensures Mul(c, Mul(a, b, r, p), r, p)[k] == Mul(a, Mul(b, c, r, p), r, p)[k]
    {
      CoefOfProductRight(c, a, b, r, p, k);
      CoefOfProductRight(a, b, c, r, p, k);
      CubeRotates(a, b, c, r, k);
    }
  }

  /** Multiplying by `[1]` first (reducing a list to length r and into [0, p)) does
      not change a product. This is why `poly`, which starts unreduced as `[a, 1]`,
      acts as its reduction. */
  lemma MulReducedRight(x: seq<int>, y: seq<int>, r: nat, p: nat)
    requires r > 0 && p > 0
    ensures Mul(x, Mul([1], y, r, p), r, p) == Mul(x, y, r, p)
  {
    MulAssociates(x, [1], y, r, p);
    MulCommutes(x, [1], r, p);
    MulAssociates([1], x, y, r, p);
    MulOneLeft(Mul(x, y, r, p), r, p);
  }

  /** `base^e` under `polyMult`, starting from the unreduced `[1]` that `x` starts from. */
  function PolyPow(base: seq<int>, e: nat, r: nat, p: nat): seq<int>
    requires r > 0 && (e == 0 || p > 0)
    decreases e
  {
    if e == 0 then [1] else Mul(PolyPow(base, e - 1, r, p), base, r, p)
  }

  /** `base^e1 * base^e2 == base^(e1 + e2)` for e2 >= 1. */
  lemma {:induction false} PolyPowAdd(base: seq<int>, e1: nat, e2: nat, r: nat, p: nat)
    requires r > 0 && p > 0 && e2 >= 1
    ensures Mul(PolyPow(base, e1, r, p), PolyPow(base, e2, r, p), r, p) == PolyPow(base, e1 + e2, r, p)
    decreases e2
  {
    var P1 := PolyPow(base, e1, r, p);
    if e2 == 1 {
      assert PolyPow(base, 1, r, p) == Mul([1], base, r, p);
      MulReducedRight(P1, base, r, p);
    } else {
      var P2 := PolyPow(base, e2 - 1, r, p);
      MulAssociates(P1, P2, base, r, p);
      PolyPowAdd(base, e1, e2 - 1, r, p);
      assert e1 + e2 - 1 + 1 == e1 + e2;
    }
  }

  /** The step `x = polyMult(x, poly, r, p)` when x is `base^ex` and poly stands for `base^ep`. */
  lemma MultiplyStep(base: seq<int>, x: seq<int>, poly: seq<int>, ex: nat, ep: nat, r: nat, p: nat)
    requires r > 0 && p > 0 && ep >= 1
    requires x == PolyPow(base, ex, r, p) && Mul([1], poly, r, p) == PolyPow(base, ep, r, p)
    ensures Mul(x, poly, r, p) == PolyPow(base, ex + ep, r, p)
  {
    MulReducedRight(x, poly, r, p);
    PolyPowAdd(base, ex, ep, r, p);
  }

  /** The step `poly = polyMult(poly, poly, r, p)`: poly then stands for `base^(2 ep)`. */
  lemma SquareStep(base: seq<int>, poly: seq<int>, ep: nat, r: nat, p: nat)
    requires r > 0 && p > 0 && ep >= 1
    requires Mul([1], poly, r, p) == PolyPow(base, ep, r, p)
    ensures Mul([1], Mul(poly, poly, r, p), r, p) == PolyPow(base, ep + ep, r, p)
  {
    var P := PolyPow(base, ep, r, p);
    MulOneLeft(Mul(poly, poly, r, p), r, p);
    MulReducedRight(poly, poly, r, p);
    MulCommutes(poly, P, r, p);
    MulReducedRight(P, poly, r, p);
    PolyPowAdd(base, ep, ep, r, p);
  }
}
