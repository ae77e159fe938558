/** `is_perfect_power` (aks2.py): for each prime exponent b of a fixed table with
    b <= log2(n) + 1, try every base x from 2 up to `int(2^(log2(n)/b + 1))`.

    The two floating-point bounds are replaced by exact integer comparisons:
    `b <= log2(n) + 1` holds exactly when `2^(b-1) <= n`, and
    `x <= int(2^(log2(n)/b + 1))` (that is, x <= 2 * n^(1/b)) exactly when
    `x^b <= 2^b * n`. */
module PerfectPower {
  import opened Numbers

  /** The exponent table of aks2.py: the primes up to 47. */
  const Primes: seq<nat> := [2, 3, 5, 7, 11, 13, 17, 19, 23, 29, 31, 37, 41, 43, 47]

  /** `n` is `x^b` for a base x >= 2 and an exponent b from the table. */
  ghost predicate IsTablePower(n: nat)
  {
    exists b: nat, x: nat :: b in Primes && 2 <= x && Pow(x, b) == n
  }

  /** The inner search for exponent b has passed every base from `x` on once
      `x^b` exceeds `2^b * n`: larger bases only give larger powers. */
  lemma BasesExhausted(n: nat, b: nat, x: nat)
    requires b >= 1 && x >= 2 && Pow(x, b) > Pow(2, b) * n
    ensures forall y: nat :: y >= x ==> Pow(y, b) != n
  {
    PowPositive(2, b);
    MulMonotone(1, Pow(2, b), n);
    forall y: nat | y >= x
      ensures Pow(y, b) != n
    {
      PowMonotoneBase(x, y, b);
    }
  }

  /** The outer search has passed every exponent from `b` on once `2^(b-1) > n`. */
  lemma ExponentsExhausted(n: nat, b: nat)
    requires b >= 1 && Pow(2, b - 1) > n
    ensures forall c: nat, y: nat :: c >= b && y >= 2 ==> Pow(y, c) != n
  {
    forall c: nat, y: nat | c >= b && y >= 2
      ensures Pow(y, c) != n
    {
      PowMonotoneExp(2, b - 1, c);
      PowMonotoneBase(2, y, c);
    }
  }

  /** `is_perfect_power(n)`; `n >= 1` because `log(n, 2)` raises for n <= 0. */
  method IsPerfectPower(n: nat) returns (found: bool)
    requires n >= 1
    ensures found <==> IsTablePower(n)
  {
    var b: nat := 2;
    while Pow(2, b - 1) <= n
      invariant b >= 2
      invariant forall c: nat, y: nat :: 2 <= c < b && c in Primes && 2 <= y ==> Pow(y, c) != n
      decreases n + 1 - Pow(2, b - 1)
    {
      PowTwoDoubles(b - 1);
      if b in Primes {
        var x: nat := 2;
        while Pow(x, b) <= Pow(2, b) * n
          invariant x >= 2
          invariant forall y: nat :: 2 <= y < x ==> Pow(y, b) != n
          decreases Pow(2, b) * n - x
        {
          PowAtLeastBase(x, b);
          if Pow(x, b) == n {
            return true;
          }
          x := x + 1;
        }
        BasesExhausted(n, b, x);
        b := b + 1;
      } else {
        b := b + 1;
      }
    }
    ExponentsExhausted(n, b);
    found := false;
  }

  /** A "composite" verdict from this stage is sound: the base is a proper divisor. */
  lemma TablePowerIsComposite(n: nat)
    requires IsTablePower(n)
    ensures exists d: nat :: 1 < d < n && Divides(d, n)
    ensures !IsPrime(n)
  {
    var b: nat, x: nat :| b in Primes && 2 <= x && Pow(x, b) == n;
    var rest := Pow(x, b - 1);
    PowAtLeastBase(x, b - 1);
    assert n == x * rest;
    MulMonotone(2, x, rest);
    ModOfMultiple(x, rest);
    assert 1 < x < n && Divides(x, n);
  }

  /** Every perfect power whose exponent has a prime factor in the table is found. */
  lemma PowerWithTableFactorIsFound(n: nat, y: nat, e: nat, q: nat)
    requires y >= 2 && n == Pow(y, e) && q in Primes && e >= q && e % q == 0
    ensures IsTablePower(n)
  {
    assert q >= 2;
    var k := e / q;
    assert e == k * q by {
      assert e == q * (e / q) + e % q;
    }
    assert k >= 1;
    PowMul(y, k, q);
    PowAtLeastBase(y, k);
    var x := Pow(y, k);
    assert 2 <= x && Pow(x, q) == n;
  }
}
