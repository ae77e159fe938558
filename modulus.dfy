/** `get_r` (aks2.py): the smallest r >= 2 that is coprime to n and for which the
    order of n modulo r exceeds `log(n, 2)^2`.

    The threshold is a float in the source. Since an order is an integer,
    `ord > log2(n)^2` holds exactly when `ord > floor(log2(n)^2)`, so the model takes
    that floor as the natural-number parameter `t`. */
module Modulus {
  import opened Numbers
  import opened Euclid
  import opened Order

  /** `r` passes both tests of `get_r`: `gcd(r, n) == 1` and `ord(n, r) > t`
      (stated without running the order search, see `Order.OrderAboveIff`). */
  predicate Accepts(n: nat, t: nat, r: nat)
  {
    r >= 2 && GcdOf(r, n) == 1 && !OrderAtMost(n, r, t)
  }

  predicate IsSmallestModulus(n: nat, t: nat, r: nat)
  {
    Accepts(n, t, r) && forall s :: 2 <= s < r ==> !Accepts(n, t, s)
  }

  /** `get_r(n)`: `r` runs up from 2; a non-coprime r is skipped, a coprime one is
      accepted when `ord(n, r) > t`. The source's loop is open-ended: the ghost
      `bound` is some acceptable modulus, whose existence the AKS analysis
      guarantees, and it bounds the search. Each `ord` call ends by
      `Order.OrderExists`, because r is coprime to n there. */
  method GetR(n: nat, t: nat, ghost bound: nat) returns (r: nat)
    requires Accepts(n, t, bound)
    ensures IsSmallestModulus(n, t, r)
    ensures r <= bound
  {
    r := 2;
    while true
      invariant 2 <= r <= bound
      invariant forall s :: 2 <= s < r ==> !Accepts(n, t, s)
      decreases bound - r
    {
      var g := Gcd(r, n);
      if g != 1 {
        assert !Accepts(n, t, r);
        r := r + 1;
      } else {
        GcdCommutes(r, n);
        ghost var w := OrderExists(n, r);
        var k := Ord(n, r, w);
        OrderAboveIff(n, r, k, t);
        if k > t {
          return;
        }
        assert OrderAtMost(n, r, t);
        assert !Accepts(n, t, r);
        r := r + 1;
      }
    }
  }

  /** An accepted r does not divide n: its gcd with n would be r itself.
      So `n % r != 0` wherever `get_r`'s result is used. */
  lemma AcceptedModulusDoesNotDivide(n: nat, t: nat, r: nat)
    requires Accepts(n, t, r)
    ensures n % r != 0
  {
    if n % r == 0 {
      GcdDividesBoth(r, n);
      GcdGreatest(r, n, r);
      assert Divides(r, 1);
      DivisorAtMost(r, 1);
    }
  }
}
