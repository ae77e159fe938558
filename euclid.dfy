/** `gcd` (aks2.py): Euclid's algorithm on non-negative integers, its specification
    as a function, and the facts about common divisors that the order search and
    the GCD screen rely on. */
module Euclid {
  import opened Numbers

  /** The greatest common divisor, by Euclid's recursion. The lemmas below show that
      it is a common divisor that every other common divisor divides. */
  function GcdOf(a: nat, b: nat): nat
    decreases b
  {
    if b == 0 then a else GcdOf(b, a % b)
  }

  predicate IsCommonDivisor(d: nat, a: nat, b: nat)
  {
    Divides(d, a) && Divides(d, b)
  }

  /** A linear combination of two multiples of `d` is a multiple of `d`. */
  lemma MultipleCombination(d: int, x: int, y: int, c1: int, c2: int)
    requires d > 0 && x % d == 0 && y % d == 0
    ensures (c1 * x + c2 * y) % d == 0
  {
    assert x == d * (x / d);
    assert y == d * (y / d);
    calc {
      c1 * x + c2 * y;
      c1 * (d * (x / d)) + c2 * (d * (y / d));
      d * (c1 * (x / d) + c2 * (y / d));
    }
    ModOfMultiple(d, c1 * (x / d) + c2 * (y / d));
  }

  /** A positive multiple of `d` is at least `d`. */
  lemma DivisorAtMost(d: nat, x: nat)
    requires Divides(d, x) && x > 0
    ensures 1 <= d <= x
  {
    assert d > 0;
    assert x == d * (x / d);
    assert x / d >= 1;
    MulMonotone(1, x / d, d);
  }

  lemma DividesAntisymmetric(x: nat, y: nat)
    requires Divides(x, y) && Divides(y, x)
    ensures x == y
  {
    if x > 0 && y > 0 {
      DivisorAtMost(x, y);
      DivisorAtMost(y, x);
    }
  }

  lemma {:induction false} GcdDividesBoth(a: nat, b: nat)
    ensures IsCommonDivisor(GcdOf(a, b), a, b)
    decreases b
  {
    if b > 0 {
      var g := GcdOf(a, b);
      GcdDividesBoth(b, a % b);
      assert g == GcdOf(b, a % b);
      assert g > 0;
      assert a == (a / b) * b + 1 * (a % b);
      MultipleCombination(g, b, a % b, a / b, 1);
    }
  }

  lemma {:induction false} GcdGreatest(a: nat, b: nat, d: nat)
    requires IsCommonDivisor(d, a, b)
    ensures Divides(d, GcdOf(a, b))
    decreases b
  {
    if b > 0 {
      if d > 0 {
        assert a % b == 1 * a + (-(a / b)) * b;
        MultipleCombination(d, a, b, 1, -(a / b));
      }
      GcdGreatest(b, a % b, d);
    }
  }

  /** Common divisors of `a` and `b` are exactly the divisors of `GcdOf(a, b)`. */
  lemma GcdCharacterisation(a: nat, b: nat, d: nat)
    ensures IsCommonDivisor(d, a, b) <==> Divides(d, GcdOf(a, b))
  {
    GcdDividesBoth(a, b);
    if Divides(d, GcdOf(a, b)) {
      var g := GcdOf(a, b);
      if d > 0 {
        if g == 0 {
          assert a == 0 && b == 0;
        } else {
          assert g % d == 0;
          if a > 0 {
            assert a % g == 0;
            assert a == (a / g) * g + 0 * g;
            MultipleCombination(d, g, g, a / g, 0);
          }
          if b > 0 {
            assert b % g == 0;
            assert b == (b / g) * g + 0 * g;
            MultipleCombination(d, g, g, b / g, 0);
          }
        }
      }
    } else {
      if IsCommonDivisor(d, a, b) {
        GcdGreatest(a, b, d);
      }
    }
  }

  lemma GcdCommutes(a: nat, b: nat)
    ensures GcdOf(a, b) == GcdOf(b, a)
  {
    GcdDividesBoth(a, b);
    GcdDividesBoth(b, a);
    GcdGreatest(a, b, GcdOf(b, a));
    GcdGreatest(b, a, GcdOf(a, b));
    DividesAntisymmetric(GcdOf(a, b), GcdOf(b, a));
  }

  /** Bezout's identity, following Euclid's recursion. */
  lemma {:induction false} Bezout(a: nat, b: nat) returns (u: int, v: int)
    ensures u * a + v * b == GcdOf(a, b)
    decreases b
  {
    if b == 0 {
      u, v := 1, 0;
    } else {
      var u', v' := Bezout(b, a % b);
      assert a % b == a - (a / b) * b;
      u, v := v', u' - v' * (a / b);
      calc {
        u * a + v * b;
        v' * a + u' * b - v' * (a / b) * b;
        u' * b + v' * (a - (a / b) * b);
        u' * b + v' * (a % b);
        GcdOf(a, b);
      }
    }
  }

  lemma Expand(u: int, x: int, v: int, m: int, w: int)
    ensures (u * x + v * m) * w == u * (x * w) + m * (v * w)
  {
  }

  /** Multiplying a Bezout identity `u x + v m == 1` by w, when `x w == m k`. */
  lemma BezoutScale(u: int, v: int, x: int, m: int, w: int, k: int)
    requires u * x + v * m == 1 && x * w == m * k
    ensures w == m * (u * k + v * w)
  {
    Expand(u, x, v, m, w);
    assert u * (x * w) == m * (u * k);
  }

  lemma MultipleOfModulus(t: int, m: int)
    requires m > 0 && t % m == 0
    ensures t == m * (t / m)
  {
  }

  /** A factor coprime to the modulus can be cancelled from a congruence. */
  lemma CancelCoprime(x: nat, y: int, z: int, m: nat)
    requires m > 0 && GcdOf(x, m) == 1
    requires (x * y) % m == (x * z) % m
    ensures y % m == z % m
  {
    var u, v := Bezout(x, m);
    var w := y - z;
    assert x * y - x * z == x * w;
    ModSub(x * y, x * z, m);
    MultipleOfModulus(x * w, m);
    var k := (x * w) / m;
    BezoutScale(u, v, x, m, w, k);
    ModOfMultiple(m, u * k + v * w);
    ModEqFromDiff(y, z, m);
  }

  /** `gcd(a, b)` of aks2.py: `(a, b) := (b, a % b)` while `b > 0`, then `a`. */
  method Gcd(a0: nat, b0: nat) returns (g: nat)
    ensures g == GcdOf(a0, b0)
    ensures IsCommonDivisor(g, a0, b0)
    ensures forall d :: IsCommonDivisor(d, a0, b0) ==> Divides(d, g)
    ensures b0 == 0 ==> g == a0
  {
    var a, b := a0, b0;
    while b > 0
      invariant GcdOf(a, b) == GcdOf(a0, b0)
      decreases b
    {
      a, b := b, a % b;
    }
    g := a;
    GcdDividesBoth(a0, b0);
    forall d | IsCommonDivisor(d, a0, b0)
      ensures Divides(d, g)
    {
      GcdGreatest(a0, b0, d);
    }
  }
}
