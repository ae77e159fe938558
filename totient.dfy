/** `phi` (aks2.py): the length of the list of x in [1, n) with `gcd(x, n) == 1`. */
module Totient {
  import opened Numbers
  import opened Euclid

  /** The list comprehension `[x for x in range(1, k) if gcd(x, n) == 1]`, in order. */
  function CoprimesBelow(n: nat, k: nat): (s: seq<nat>)
    ensures forall x :: x in s <==> 1 <= x < k && GcdOf(x, n) == 1
    ensures forall i, j :: 0 <= i < j < |s| ==> s[i] < s[j]
    ensures |s| <= if k == 0 then 0 else k - 1
  {
    if k <= 1 then []
    else
      var t := CoprimesBelow(n, k - 1);
      assert forall i :: 0 <= i < |t| ==> t[i] in t;
      t + (if GcdOf(k - 1, n) == 1 then [k - 1] else [])
  }

  /** `phi(n)`: note that `phi(1)` is 0 as written. */
  function Phi(n: nat): (c: nat)
    ensures n >= 1 ==> c <= n - 1
    ensures n <= 1 ==> c == 0
  {
    |CoprimesBelow(n, n)|
  }

  ghost function CoprimeSet(n: nat): set<nat>
  {
    set x: nat | 1 <= x < n && GcdOf(x, n) == 1
  }

  ghost function Elements(s: seq<nat>): set<nat>
  {
    set x | x in s
  }

  lemma {:induction false} DistinctCardinality(s: seq<nat>)
    requires forall i, j :: 0 <= i < j < |s| ==> s[i] < s[j]
    ensures |Elements(s)| == |s|
  {
    if s != [] {
      var t := s[..|s| - 1];
      var last := s[|s| - 1];
      DistinctCardinality(t);
      assert Elements(s) == Elements(t) + {last} by {
        assert s == t + [last];
      }
      assert last !in Elements(t) by {
        forall i | 0 <= i < |t| ensures t[i] < last {
          assert t[i] == s[i];
        }
      }
    }
  }

  /** `phi(n)` is the number of residues in [1, n) coprime to n. */
  lemma PhiCountsCoprimes(n: nat)
    ensures Phi(n) == |CoprimeSet(n)|
  {
    var s := CoprimesBelow(n, n);
    DistinctCardinality(s);
    assert Elements(s) == CoprimeSet(n);
  }

  lemma {:induction false} AllCoprimeBelow(n: nat, k: nat)
    requires k >= 1
    requires forall x :: 1 <= x < k ==> GcdOf(x, n) == 1
    ensures |CoprimesBelow(n, k)| == k - 1
  {
    if k > 1 {
      AllCoprimeBelow(n, k - 1);
    }
  }

  /** Every residue in [1, p) is coprime to a prime p. */
  lemma CoprimeToPrime(p: nat, x: nat)
    requires IsPrime(p) && 1 <= x < p
    ensures GcdOf(x, p) == 1
  {
    var g := GcdOf(x, p);
    GcdDividesBoth(x, p);
    DivisorAtMost(g, x);
  }

  /** The docstring calls `phi` Euler's totient: `phi(p) = p - 1` for a prime p. */
  lemma PhiOfPrime(p: nat)
    requires IsPrime(p)
    ensures Phi(p) == p - 1
  {
    forall x | 1 <= x < p
      ensures GcdOf(x, p) == 1
    {
      CoprimeToPrime(p, x);
    }
    AllCoprimeBelow(p, p);
  }
}
