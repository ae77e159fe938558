/** `is_congruent` (aks2.py): raises `[a, 1]` (the polynomial x + a) to the power p
    in Z_p[x]/(x^r - 1) by square-and-multiply, then compares the result with a
    vector `check` that is meant to be x^p + a reduced the same way. */
module Congruence {
  import opened Numbers
  import opened Sums
  import opened Poly
  import opened PolyAlgebra

  /** The number of binary digits of n, 0 for n == 0: how many times `n >>= 1` runs
      before n reaches 0. */
  function BitLength(n: nat): nat
    decreases n
  {
    if n == 0 then 0 else 1 + BitLength(n / 2)
  }

  /** n has exactly `BitLength(n)` binary digits. */
  lemma {:induction false} BitLengthBounds(n: nat)
    requires n >= 1
    ensures Pow(2, BitLength(n) - 1) <= n < Pow(2, BitLength(n))
    decreases n
  {
    if n > 1 {
      BitLengthBounds(n / 2);
      var l := BitLength(n / 2);
      assert BitLength(n) == l + 1;
      assert Pow(2, l + 1) == 2 * Pow(2, l);
      PowPositive(2, l - 1);
      if l >= 1 {
        assert Pow(2, l) == 2 * Pow(2, l - 1);
      }
    }
  }

  /** The vector `check` as aks2.py builds it: r zeros, then `a` written at index 0,
      then `1` written at index `p % r`. When `p % r == 0` the second write replaces
      the first, and `a` is not reduced modulo p. */
  function ExpectedAsWritten(a: int, p: nat, r: nat): (c: seq<int>)
    requires r >= 1
    ensures |c| == r
  {
    seq(r, k requires 0 <= k < r => if k == p % r then 1 else if k == 0 then a else 0)
  }

  /** The two indexed writes into r zeros give `ExpectedAsWritten`. */
  lemma CheckWrites(a: int, p: nat, r: nat, check: seq<int>)
    requires r >= 1 && |check| == r
    requires check[p % r] == 1 && (p % r != 0 ==> check[0] == a)
    requires forall k :: 0 < k < r && k != p % r ==> check[k] == 0
    ensures check == ExpectedAsWritten(a, p, r)
  {
  }

  /** What `is_congruent` returns, as written: whether `[a, 1]^p` equals `check`. */
  predicate PassesAsWritten(a: int, p: nat, r: nat)
    requires r >= 1
  {
    PolyPow([a, 1], p, r, p) == ExpectedAsWritten(a, p, r)
  }

  /** One round keeps `ex + ep * n`: an odd n moves one `ep` into `ex` before halving. */
  lemma ExponentStep(ex: nat, ep: nat, n: nat)
    ensures (if n % 2 == 1 then ex + ep else ex) + (ep + ep) * (n / 2) == ex + ep * n
  {
    assert n == 2 * (n / 2) + n % 2;
    assert ep * n == (ep + ep) * (n / 2) + ep * (n % 2);
  }

  /** The state of the square-and-multiply loop: x is `base^ex`, poly stands for
      `base^ep` (its reduction is that power), and `ex + ep * n == p`, which is
      `x * poly^n == base^p`. */
  ghost predicate Halfway(base: seq<int>, x: seq<int>, poly: seq<int>, n: nat, ex: nat, ep: nat, r: nat, p: nat)
    requires r >= 1 && p > 0
  {
    ep >= 1 && ex + ep * n == p && x == PolyPow(base, ex, r, p)
    && Mul([1], poly, r, p) == PolyPow(base, ep, r, p)
  }

  /** One round of the loop keeps `Halfway`: from (x, poly, n, ex, ep) it goes to
      (x2, poly2, n / 2, ex2, 2 ep), where x2 takes in poly when n is odd and poly2
      is poly squared. */
  lemma RoundStep(base: seq<int>, x: seq<int>, poly: seq<int>, n: nat, ex: nat, ep: nat,
                  x2: seq<int>, poly2: seq<int>, ex2: nat, r: nat, p: nat)
    requires r >= 1 && p > 0 && n != 0 && Halfway(base, x, poly, n, ex, ep, r, p)
    requires x2 == (if n % 2 == 1 then Mul(x, poly, r, p) else x)
    requires ex2 == (if n % 2 == 1 then ex + ep else ex)
    requires poly2 == Mul(poly, poly, r, p)
    ensures Halfway(base, x2, poly2, n / 2, ex2, ep + ep, r, p)
  {
    ExponentStep(ex, ep, n);
    SquareStep(base, poly, ep, r, p);
    if n % 2 == 1 {
      MultiplyStep(base, x, poly, ex, ep, r, p);
    }
  }

  /** `is_congruent(a, p, r)`. Both `n & 1` and `n >>= 1` act on a non-negative n, where
      they are `n % 2` and `n / 2`. The ghost `rounds` counts the iterations. */
  method IsCongruent(a: int, p: nat, r: nat) returns (result: bool, ghost rounds: nat)
    requires r >= 1
    ensures result <==> PassesAsWritten(a, p, r)
    ensures rounds == BitLength(p)
  {
    ghost var base := [a, 1];
    var x: seq<int> := [1];
    var poly: seq<int> := [a, 1];
    var n: nat := p;
    ghost var ex: nat, ep: nat := 0, 1;
    rounds := 0;
    while n != 0
      invariant if p == 0 then n == 0 && x == [1] else Halfway(base, x, poly, n, ex, ep, r, p)
      invariant rounds + BitLength(n) == BitLength(p)
      decreases n
    {
      ghost var x0, poly0, n0, ex0, ep0 := x, poly, n, ex, ep;
      if n % 2 == 1 {
        x := PolyMult(x, poly, r, p);
        ex := ex + ep;
      }
      n := n / 2;
      poly := PolyMult(poly, poly, r, p);
      ep := ep + ep;
      rounds := rounds + 1;
      RoundStep(base, x0, poly0, n0, ex0, ep0, x, poly, ex, r, p);
    }
    assert x == PolyPow(base, p, r, p);
    var check: seq<int> := seq(r, _ => 0);
    check := check[0 := a];
    check := check[p % r := 1];
    CheckWrites(a, p, r, check);
    result := x == check;
  }

  /** The dense coefficient list of x^p + a: index 0 holds a, index p holds 1. */
  function XPowPlus(a: int, p: nat): (c: seq<int>)
    ensures |c| == p + 1
  {
    seq(p + 1, i requires 0 <= i <= p => (if i == 0 then a else 0) + (if i == p then 1 else 0))
  }

  /** The vector the comparison is meant to use: x^p + a reduced modulo (x^r - 1, p),
      so that the two terms add when `p % r == 0` and a is reduced modulo p. */
  function ExpectedReduced(a: int, p: nat, r: nat): (c: seq<int>)
    requires r >= 1 && p >= 1
    ensures |c| == r
  {
    seq(r, k requires 0 <= k < r => ((if k == 0 then a else 0) + (if k == p % r then 1 else 0)) % p)
  }

  /** Coefficient k of x^p + a folded modulo x^r - 1: a lands on 0, x^p on `p % r`. */
  lemma CoefOfXPowPlus(a: int, p: nat, r: nat, k: nat)
    requires r >= 1 && p >= 1 && k < r
    ensures Coef([1], XPowPlus(a, p), r, k) == (if k == 0 then a else 0) + (if k == p % r then 1 else 0)
  {
    var c := XPowPlus(a, p);
    var T := Term([1], c, r, k);
    var f := RowOf(T, 0);
    forall j: nat | j < p && j != 0
      ensures f(j) == 0
    {
      assert c[j] == 0;
    }
    SumSingle(p, f, 0);
    assert c[0] == a && c[p] == 1;
    assert 0 % r == 0;
    assert f(0) == if k == 0 then a else 0;
    assert f(p) == if k == p % r then 1 else 0;
    assert Sum(p + 1, f) == Sum(p, f) + f(p);
    assert RowSums(T, p + 1)(0) == Sum(p + 1, f);
    assert Coef([1], c, r, k) == Sum(1, RowSums(T, p + 1));
  }

  /** `ExpectedReduced` is x^p + a reduced modulo (x^r - 1, p), the reduction that
      `polyMult` applies to its products. */
  lemma ExpectedReducedIsReduction(a: int, p: nat, r: nat)
    requires r >= 1 && p >= 1
    ensures ExpectedReduced(a, p, r) == Mul([1], XPowPlus(a, p), r, p)
  {
    forall k | 0 <= k < r
      ensures ExpectedReduced(a, p, r)[k] == Mul([1], XPowPlus(a, p), r, p)[k]
    {
      CoefOfXPowPlus(a, p, r, k);
    }
  }

  /** At index `p % r` (not 0) both vectors hold 1, as p >= 2. */
  lemma EntryOfPower(a: int, p: nat, r: nat)
    requires r >= 1 && p >= 2 && p % r != 0
    ensures ExpectedAsWritten(a, p, r)[p % r] == ExpectedReduced(a, p, r)[p % r] == 1
  {
    var q := p % r;
    assert ExpectedReduced(a, p, r)[q] == (0 + 1) % p;
  }

  /** At any other index both vectors hold a (at 0, as a is in [0, p)) or 0. */
  lemma EntryElsewhere(a: int, p: nat, r: nat, k: nat)
    requires r >= 1 && p >= 1 && 0 <= a < p && k < r && k != p % r
    ensures ExpectedAsWritten(a, p, r)[k] == ExpectedReduced(a, p, r)[k] == if k == 0 then a else 0
  {
    var u := if k == 0 then a else 0;
    assert ExpectedAsWritten(a, p, r)[k] == u;
    assert ExpectedReduced(a, p, r)[k] == (u + 0) % p;
    ModOfSmall(u, p);
  }

  /** Where `aks_test` calls `is_congruent` (p = n >= 2 not divisible by r, and a in
      [1, n)), the vector as written is the intended one. */
  lemma ChecksAgree(a: int, p: nat, r: nat)
    requires r >= 1 && p >= 2 && p % r != 0 && 0 <= a < p
    ensures ExpectedAsWritten(a, p, r) == ExpectedReduced(a, p, r)
  {
    forall k | 0 <= k < r
      ensures ExpectedAsWritten(a, p, r)[k] == ExpectedReduced(a, p, r)[k]
    {
      if k == p % r {
        EntryOfPower(a, p, r);
      } else {
        EntryElsewhere(a, p, r, k);
      }
    }
  }

  /** With a = 1, p = 2, r = 2: (x + 1)^2 = x^2 + 2x + 1 is congruent to x^2 + 1
      modulo (x^2 - 1, 2), both being 0, yet the vector as written is [1, 0] because
      the 1 for x^2 overwrites a at index 0. So `is_congruent(1, 2, 2)` is False for
      the prime 2. */
  lemma OverwriteCounterexample()
    ensures PolyPow([1, 1], 2, 2, 2) == ExpectedReduced(1, 2, 2) == [0, 0]
    ensures ExpectedAsWritten(1, 2, 2) == [1, 0]
    ensures !PassesAsWritten(1, 2, 2)
  {
    MulOneLeft([1, 1], 2, 2);
    assert PolyPow([1, 1], 1, 2, 2) == [1, 1];
    var sq := Mul([1, 1], [1, 1], 2, 2);
    assert Coef([1, 1], [1, 1], 2, 0) == 2;
    assert Coef([1, 1], [1, 1], 2, 1) == 2;
    assert sq == [0, 0];
  }
}
