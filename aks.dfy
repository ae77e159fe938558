/** `aks_test` (aks2.py): the five gates of the AKS test in the order the source
    runs them, each of which may end the test early.

    The floating-point quantities are parameters. `t` is `floor(log(n, 2)^2)`: an
    order exceeds the float `log(n, 2)^2` exactly when it exceeds that floor.
    `limit` maps `phi(r)` to the end of the witness range, `floor(sqrt(phi(r)) *
    log(n, 2))`. */
module Aks {
  import opened Numbers
  import opened Euclid
  import opened Totient
  import opened PerfectPower
  import opened Modulus
  import opened Poly
  import opened PolyAlgebra
  import opened Congruence

  datatype Verdict = Prime | Composite | DomainError

  /** The GCD screen finds some a in [1, r) with `1 < gcd(a, n) < n`. */
  predicate ScreenFails(n: nat, r: nat)
  {
    exists a :: 1 <= a < r && 1 < GcdOf(a, n) < n
  }

  /** Some witness a in [1, limit) fails `is_congruent(a, n, r)`. */
  predicate WitnessFails(n: nat, r: nat, limit: int)
    requires r >= 1
  {
    exists a :: 1 <= a < limit && !PassesAsWritten(a, n, r)
  }

  /** `aks_test(n)`. A non-positive n is a domain error: `log(n, 2)` raises in the
      first gate. The ghost `bound` is some modulus `get_r` accepts, which ends its
      search; it is needed only when n reaches `get_r`, as a table power returns first; the ghost `r` is the modulus `get_r` returned (0 when the test stops
      before calling it). */
  method AksTest(n: int, t: nat, limit: nat -> int, ghost bound: nat) returns (v: Verdict, ghost r: nat)
    requires n >= 1 && !IsTablePower(n) ==> Accepts(n, t, bound)
    ensures v == DomainError <==> n <= 0
    ensures n >= 1 && IsTablePower(n) ==> v == Composite
    ensures n >= 1 && !IsTablePower(n) ==> IsSmallestModulus(n, t, r) && r <= bound
    ensures n >= 1 && !IsTablePower(n) ==>
      (v == Composite <==> ScreenFails(n, r) || (n > r && WitnessFails(n, r, limit(Phi(r)))))
  {
    if n <= 0 {
      return DomainError, 0;
    }
    var power := IsPerfectPower(n);
    if power {
      return Composite, 0;
    }
    var m := GetR(n, t, bound);
    r := m;
    for a := 1 to m
      invariant forall b :: 1 <= b < a ==> !(1 < GcdOf(b, n) < n)
    {
      var g := Gcd(a, n);
      if g > 1 && g < n {
        return Composite, m;
      }
    }
    if n <= m {
      return Prime, m;
    }
    var end := limit(Phi(m));
    var a := 1;
    while a < end
      invariant a >= 1
      invariant forall b :: 1 <= b < a ==> PassesAsWritten(b, n, m)
      decreases end - a
    {
      var congruent, _ := IsCongruent(a, n, m);
      if !congruent {
        return Composite, m;
      }
      a := a + 1;
    }
    return Prime, m;
  }

  /** A composite verdict from the GCD screen is sound: `gcd(a, n)` is a divisor of n
      strictly between 1 and n. */
  lemma ScreenFailureIsSound(n: nat, r: nat)
    requires ScreenFails(n, r)
    ensures exists d :: 1 < d < n && Divides(d, n)
    ensures !IsPrime(n)
  {
    var a :| 1 <= a < r && 1 < GcdOf(a, n) < n;
    GcdDividesBoth(a, n);
    assert 1 < GcdOf(a, n) < n && Divides(GcdOf(a, n), n);
  }

  /** The "prime" verdict of the fourth gate is sound for n >= 2: every d in [2, n)
      lies below r, so the screen saw `gcd(d, n) == 1`, and then d does not divide n. */
  lemma PrimeBelowModulus(n: nat, r: nat)
    requires n >= 2 && n <= r && !ScreenFails(n, r)
    ensures IsPrime(n)
  {
    forall d | 2 <= d < n
      ensures !Divides(d, n)
    {
      assert !(1 < GcdOf(d, n) < n);
      GcdDividesBoth(d, n);
      DivisorAtMost(GcdOf(d, n), d);
      assert GcdOf(d, n) == 1;
      GcdCharacterisation(d, n, d);
    }
  }

  /** A prime passes the first and third gates: it is no table power, and its gcd
      with any a is 1 or itself. */
  lemma PrimePassesScreen(n: nat, r: nat)
    requires IsPrime(n)
    ensures !IsTablePower(n)
    ensures !ScreenFails(n, r)
  {
    if IsTablePower(n) {
      TablePowerIsComposite(n);
    }
    forall a | 1 <= a < r
      ensures !(1 < GcdOf(a, n) < n)
    {
      GcdDividesBoth(a, n);
    }
  }

  /** Where the fifth gate runs (n > r, r from `get_r`, a in [1, n)), the comparison
      as written is the intended congruence `(x + a)^n == x^n + a` modulo
      `(x^r - 1, n)`. */
  lemma WitnessCheckIsIntended(n: nat, t: nat, r: nat, a: int)
    requires IsSmallestModulus(n, t, r) && n > r && 1 <= a < n
    ensures PassesAsWritten(a, n, r) <==> PolyPow([a, 1], n, r, n) == ExpectedReduced(a, n, r)
  {
    AcceptedModulusDoesNotDivide(n, t, r);
    ChecksAgree(a, n, r);
  }
}
