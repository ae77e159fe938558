/** `ord` (aks2.py): the multiplicative order as the source computes it, a linear
    search for the least k >= 2 with `pow(a, k) % n == 1`. The search only ends when
    such a k exists; `OrderExists` proves that one does whenever `a` is coprime to a
    modulus of at least 2, which is how `get_r` calls it. */
module Order {
  import opened Numbers
  import opened Euclid

  /** `k` is what `ord(a, m)` returns: the least k >= 2 with `a^k % m == 1`. */
  predicate IsOrder(a: int, m: nat, k: nat)
    requires m > 0
  {
    k >= 2 && Pow(a, k) % m == 1 && forall j :: 2 <= j < k ==> Pow(a, j) % m != 1
  }

  /** Some exponent in [2, t] already brings `a` back to 1 modulo `m`. */
  predicate OrderAtMost(a: int, m: nat, t: nat)
    requires m > 0
  {
    exists j :: 2 <= j <= t && Pow(a, j) % m == 1
  }

  /** `ord(a, m)`: `k` starts at 2 and is incremented until `pow(a, k) % m == 1`.
      The ghost `w` is an exponent that ends the search. */
  method Ord(a: int, m: nat, ghost w: nat) returns (k: nat)
    requires m > 0 && w >= 2 && Pow(a, w) % m == 1
    ensures IsOrder(a, m, k)
    ensures k <= w
  {
    k := 2;
    while Pow(a, k) % m != 1
      invariant 2 <= k <= w
      invariant forall j :: 2 <= j < k ==> Pow(a, j) % m != 1
      decreases w - k
    {
      k := k + 1;
    }
  }

  /** Comparing the order with a threshold `t` is the same as asking whether some
      exponent in [2, t] already gives 1: this is how `get_r`'s test `ord(n, r) > t`
      reads without running the search. */
  lemma OrderAboveIff(a: int, m: nat, k: nat, t: nat)
    requires m > 0 && IsOrder(a, m, k)
    ensures k > t <==> !OrderAtMost(a, m, t)
  {
    if k <= t {
      assert 2 <= k <= t && Pow(a, k) % m == 1;
    }
  }

  /** The search starts at 2, so when `a % m == 1` the result is 2, not 1. */
  lemma OrderOfOneModulo(a: int, m: nat)
    requires m >= 2 && a % m == 1
    ensures IsOrder(a, m, 2)
  {
    calc {
      Pow(a, 2) % m;
      { assert Pow(a, 1) == a; assert Pow(a, 2) == a * a; }
      (a * a) % m;
      { ModMulBoth(a, a, m); }
      ((a % m) * (a % m)) % m;
      1;
    }
  }

  /** Among more than `m` values in [0, m) two are equal. */
  lemma {:induction false} Pigeonhole(s: seq<int>, m: nat) returns (i: nat, j: nat)
    requires m >= 1 && |s| > m
    requires forall k :: 0 <= k < |s| ==> 0 <= s[k] < m
    ensures i < j < |s| && s[i] == s[j]
    decreases m
  {
    var last := |s| - 1;
    var v := s[last];
    if m == 1 {
      i, j := 0, 1;
    } else if exists k :: 0 <= k < last && s[k] == v {
      var k :| 0 <= k < last && s[k] == v;
      i, j := k, last;
    } else {
      // Squeeze the values other than `v` into [0, m - 1), keeping them distinct.
      var t := seq(last, k requires 0 <= k < last => if s[k] > v then s[k] - 1 else s[k]);
      forall k | 0 <= k < |t|
        ensures 0 <= t[k] < m - 1
      {
        assert s[k] != v;
      }
      i, j := Pigeonhole(t, m - 1);
      assert s[i] != v && s[j] != v;
    }
  }

  /** Equal powers of a unit can be cancelled down to `a^(j-i) == 1`. */
  lemma {:induction false} CancelPowers(a: nat, m: nat, i: nat, j: nat)
    requires m >= 1 && GcdOf(a, m) == 1 && i <= j
    requires Pow(a, i) % m == Pow(a, j) % m
    ensures Pow(a, j - i) % m == 1 % m
  {
    if i > 0 {
      assert Pow(a, i) == a * Pow(a, i - 1);
      assert Pow(a, j) == a * Pow(a, j - 1);
      CancelCoprime(a, Pow(a, i - 1), Pow(a, j - 1), m);
      CancelPowers(a, m, i - 1, j - 1);
    }
  }

  /** Two of the powers a^0 .. a^m agree modulo m. */
  lemma RepeatedPower(a: nat, m: nat) returns (i: nat, j: nat)
    requires m >= 1
    ensures i < j && Pow(a, i) % m == Pow(a, j) % m
  {
    var s := seq(m + 1, k requires 0 <= k <= m => Pow(a, k) % m);
    i, j := Pigeonhole(s, m);
    assert s[i] == Pow(a, i) % m && s[j] == Pow(a, j) % m;
  }

  /** A power that is 1 modulo m stays 1 when squared. */
  lemma SquarePowerIsOne(a: nat, m: nat, d: nat)
    requires m >= 2 && Pow(a, d) % m == 1
    ensures Pow(a, d + d) % m == 1
  {
    var p := Pow(a, d);
    PowAdd(a, d, d);
    ModMulBoth(p, p, m);
    assert (p % m) * (p % m) == 1;
    ModOfSmall(1, m);
  }

  /** For `a` coprime to `m >= 2` some k >= 2 has `a^k % m == 1`, so `ord(a, m)`
      terminates. */
  lemma OrderExists(a: nat, m: nat) returns (w: nat)
    requires m >= 2 && GcdOf(a, m) == 1
    ensures w >= 2 && Pow(a, w) % m == 1
  {
    var i, j := RepeatedPower(a, m);
    CancelPowers(a, m, i, j);
    var d := j - i;
    ModOfSmall(1, m);
    assert d >= 1 && Pow(a, d) % m == 1;
    SquarePowerIsOne(a, m, d);
    w := d + d;
  }
}
