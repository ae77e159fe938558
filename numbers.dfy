/** Integer powers, divisibility and the modular-arithmetic facts that the rest of
    the model leans on. Python's `pow`, `%` and `//` on non-negative operands with a
    positive modulus agree with Dafny's Euclidean `%` and `/`. */
module Numbers {

  /** `pow(x, k)` for a natural exponent. */
  function Pow(x: int, k: nat): int
  {
    if k == 0 then 1 else x * Pow(x, k - 1)
  }

  /** `d` divides `x`; every number divides 0, and 0 divides only 0. */
  predicate Divides(d: nat, x: nat)
  {
    if d == 0 then x == 0 else x % d == 0
  }

  predicate IsPrime(n: nat)
  {
    n >= 2 && forall d :: 2 <= d < n ==> !Divides(d, n)
  }

  lemma {:induction false} PowPositive(x: int, k: nat)
    requires x >= 1
    ensures Pow(x, k) >= 1
  {
    if k > 0 {
      PowPositive(x, k - 1);
      assert Pow(x, k) == x * Pow(x, k - 1);
    }
  }

  lemma {:induction false} PowNonNegative(x: int, k: nat)
    requires x >= 0
    ensures Pow(x, k) >= 0
  {
    if k > 0 {
      PowNonNegative(x, k - 1);
    }
  }

  /** A positive exponent never makes a positive base smaller. */
  lemma {:induction false} PowAtLeastBase(x: int, k: nat)
    requires x >= 1 && k >= 1
    ensures Pow(x, k) >= x
  {
    PowPositive(x, k - 1);
    assert Pow(x, k) == x * Pow(x, k - 1);
  }

  lemma {:induction false} PowMonotoneBase(x: int, y: int, k: nat)
    requires 0 <= x <= y
    ensures Pow(x, k) <= Pow(y, k)
  {
    if k > 0 {
      PowMonotoneBase(x, y, k - 1);
      PowNonNegative(x, k - 1);
      MulMonotone(x, y, Pow(x, k - 1));
      MulMonotone(Pow(x, k - 1), Pow(y, k - 1), y);
    }
  }

  lemma {:induction false} PowMonotoneExp(x: int, j: nat, k: nat)
    requires x >= 1 && j <= k
    ensures Pow(x, j) <= Pow(x, k)
  {
    if j < k {
      PowMonotoneExp(x, j, k - 1);
      PowPositive(x, k - 1);
      assert Pow(x, k) == x * Pow(x, k - 1);
    }
  }

  lemma {:induction false} PowTwoDoubles(k: nat)
    ensures Pow(2, k + 1) == 2 * Pow(2, k) && Pow(2, k) >= 1
  {
    PowPositive(2, k);
  }

  lemma {:induction false} PowAdd(x: int, i: nat, j: nat)
    ensures Pow(x, i + j) == Pow(x, i) * Pow(x, j)
  {
    if j > 0 {
      PowAdd(x, i, j - 1);
      calc {
        Pow(x, i + j);
        x * Pow(x, i + j - 1);
        x * (Pow(x, i) * Pow(x, j - 1));
        Pow(x, i) * (x * Pow(x, j - 1));
      }
    }
  }

  lemma {:induction false} PowMul(x: int, i: nat, j: nat)
    ensures Pow(x, i * j) == Pow(Pow(x, i), j)
  {
    if j > 0 {
      PowMul(x, i, j - 1);
      assert i * j == i * (j - 1) + i;
      PowAdd(x, i * (j - 1), i);
    }
  }

  lemma MulMonotone(a: int, b: int, c: int)
    requires a <= b && c >= 0
    ensures a * c <= b * c
  {
    assert b * c - a * c == (b - a) * c;
  }

  /** The only multiple of a positive `m` strictly between `-m` and `m` is 0. */
  lemma SmallMultipleIsZero(m: int, k: int)
    requires m > 0 && -m < m * k < m
    ensures k == 0
  {
    if k >= 1 {
      MulMonotone(1, k, m);
    } else if k <= -1 {
      MulMonotone(k, -1, m);
    }
  }

  /** A multiple of `m` plus `c` leaves the remainder of `c`. */
  lemma ModMultipleAdd(m: int, q: int, c: int)
    requires m > 0
    ensures (m * q + c) % m == c % m
  {
    var t := m * q + c;
    assert t == m * (t / m) + t % m;
    assert c == m * (c / m) + c % m;
    assert m * (t / m - q - c / m) == c % m - t % m;
    SmallMultipleIsZero(m, t / m - q - c / m);
  }

  lemma ModOfSmall(x: int, m: int)
    requires 0 <= x < m
    ensures x % m == x
  {
  }

  lemma ModOfMultiple(m: int, q: int)
    requires m > 0
    ensures (m * q) % m == 0
  {
    ModMultipleAdd(m, q, 0);
  }

  lemma ModAddLeft(x: int, y: int, m: int)
    requires m > 0
    ensures (x % m + y) % m == (x + y) % m
  {
    assert x + y == m * (x / m) + (x % m + y);
    ModMultipleAdd(m, x / m, x % m + y);
  }

  lemma ModMulBoth(x: int, y: int, m: int)
    requires m > 0
    ensures (x * y) % m == ((x % m) * (y % m)) % m
  {
    var qx, rx := x / m, x % m;
    var qy, ry := y / m, y % m;
    assert x == m * qx + rx;
    assert y == m * qy + ry;
    calc {
      x * y;
      (m * qx + rx) * (m * qy + ry);
      m * (qx * (m * qy + ry) + rx * qy) + rx * ry;
    }
    ModMultipleAdd(m, qx * (m * qy + ry) + rx * qy, rx * ry);
  }

  lemma ModMulLeft(x: int, y: int, m: int)
    requires m > 0
    ensures ((x % m) * y) % m == (x * y) % m
  {
    var u := x % m;
    ModOfSmall(u, m);
    ModMulBoth(x, y, m);
    ModMulBoth(u, y, m);
  }

  lemma ModSub(x: int, y: int, m: int)
    requires m > 0 && x % m == y % m
    ensures (x - y) % m == 0
  {
    assert x == m * (x / m) + x % m;
    assert y == m * (y / m) + y % m;
    assert x - y == m * (x / m - y / m);
    ModOfMultiple(m, x / m - y / m);
  }

  lemma ModEqFromDiff(x: int, y: int, m: int)
    requires m > 0 && (x - y) % m == 0
    ensures x % m == y % m
  {
    assert x - y == m * ((x - y) / m);
    assert x == m * ((x - y) / m) + y;
    ModMultipleAdd(m, (x - y) / m, y);
  }

  lemma ModAddCongruent(a: int, b: int, x: int, y: int, m: int)
    requires m > 0 && a % m == b % m && x % m == y % m
    ensures (a + x) % m == (b + y) % m
  {
    ModAddLeft(a, x, m);
    ModAddLeft(b, x, m);
    ModAddLeft(x, b, m);
    ModAddLeft(y, b, m);
  }
}
