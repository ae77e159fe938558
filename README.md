# AKS primality test in Dafny

This project models `aks2.py`, a Python implementation of the
Agrawal–Kayal–Saxena (AKS) primality test. It covers every routine of that
file:

- `gcd`: Euclid's loop.
- `phi`: a count of the residues coprime to n.
- `ord`: a linear search for the multiplicative order.
- `is_perfect_power`: nested loops over a table of prime exponents and bases.
- `get_r`: the search for the smallest suitable modulus r.
- `polyMult`: in-place multiplication in Z_p[x]/(x^r - 1).
- `is_congruent`: square-and-multiply, then a comparison with an expected vector.
- `aks_test`: the five gates of the test.

Each routine becomes a Dafny method that follows the source's loops, or a function where the source is pure (`phi`). Each is proved against a specification function. The lemmas beside them state what the source promises:

- minimality of the searches;
- the coefficient formula of the product;
- commutativity and associativity of the product;
- the square-and-multiply invariant;
- soundness of the "composite" verdicts of the perfect-power and GCD gates, and of the "prime" verdict of the `n <= r` gate.

Module layout, one file each:

| module | file | contents |
|---|---|---|
| `Numbers` | `numbers.dfy` | `Pow`, `Divides`, `IsPrime`, power and modulo arithmetic |
| `Sums` | `sums.dfy` | finite sums, exchanging a double sum, sums modulo p |
| `Euclid` | `euclid.dfy` | `gcd` and Bezout's identity |
| `Totient` | `totient.dfy` | `phi` |
| `Order` | `order.dfy` | `ord`, and the existence of an order for coprime arguments |
| `PerfectPower` | `perfect_power.dfy` | `is_perfect_power` |
| `Modulus` | `modulus.dfy` | `get_r` |
| `Poly` | `poly.dfy` | `polyMult` |
| `PolyAlgebra` | `poly_algebra.dfy` | associativity and powers of the product |
| `Congruence` | `congruence.dfy` | `is_congruent` |
| `Aks` | `aks.dfy` | `aks_test` |

The floating-point quantities of the source are replaced as follows:

- `b <= log(n, 2) + 1` becomes the exact integer test `2^(b-1) <= n`.
- The base bound `x <= int(2^(log(n, 2)/b + 1))` becomes `x^b <= 2^b * n`.
- The order threshold `log(n, 2)^2` becomes the natural number `t = floor(log2(n)^2)`. An order is an integer, so it exceeds the float exactly when it exceeds the floor.
- The witness range end `floor(sqrt(phi(r)) * log(n, 2))` becomes a parameter `limit`, applied to `phi(r)`.

## Model

| member | source | states |
|---|---|---|
| Euclid.Gcd | aks2.py:83-90 | The loop returns `GcdOf(a, b)`, which divides both inputs and is divided by every common divisor. `gcd(a, 0) == a`. |
| Euclid.GcdCharacterisation | aks2.py:83-90 | d divides both a and b exactly when d divides `GcdOf(a, b)`. |
| Euclid.GcdCommutes | aks2.py:108-110 | `gcd(r, n) == gcd(n, r)`, so the coprimality that `get_r` tests is the one that `ord(n, r)` needs. |
| Totient.CoprimesBelow | aks2.py:98 | The list comprehension: x is in the list exactly when `1 <= x < k` and `gcd(x, n) == 1`. The list is strictly increasing and has at most k - 1 elements. |
| Totient.Phi | aks2.py:93-98 | `0 <= phi(n) <= n - 1` for n >= 1, and `phi(n) == 0` for n <= 1. |
| Totient.PhiCountsCoprimes | aks2.py:93-98 | `phi(n)` is the size of the set of x in [1, n) coprime to n. |
| Totient.PhiOfPrime | aks2.py:93-97 | `phi(p) == p - 1` for every prime p, as Euler's totient. |
| Order.Ord | aks2.py:37-50 | Given some exponent w >= 2 with `a^w % m == 1`, the result k is the least k >= 2 with `a^k % m == 1`, and k <= w. |
| Order.OrderAboveIff | aks2.py:110 | For the order k, `k > t` holds exactly when no exponent in [2, t] gives 1. |
| Order.OrderOfOneModulo | aks2.py:43-46 | When `a % m == 1` the search returns 2, not 1. |
| Order.OrderExists | aks2.py:37-50 | For a coprime to m >= 2 some exponent w >= 2 has `a^w % m == 1`, so `ord` terminates on every call from `get_r`. |
| PerfectPower.IsPerfectPower | aks2.py:53-80 | For n >= 1, the result is True exactly when `n == x^b` for some base x >= 2 and some exponent b in the prime table. |
| PerfectPower.BasesExhausted | aks2.py:67-75 | Once `x^b` exceeds `2^b * n`, no base from x on gives `x^b == n`. |
| PerfectPower.ExponentsExhausted | aks2.py:64 | Once `2^(b-1) > n`, no exponent from b on gives a power equal to n. |
| PerfectPower.TablePowerIsComposite | aks2.py:13-14 | A table power has a divisor strictly between 1 and n, so it is not prime. |
| PerfectPower.PowerWithTableFactorIsFound | aks2.py:59-62 | Testing only prime exponents loses nothing: `y^e` with y >= 2 and a table prime dividing e is a table power. |
| Modulus.GetR | aks2.py:101-115 | The result r is accepted: r >= 2, `gcd(r, n) == 1` and `ord(n, r) > t`. Every s in [2, r) is rejected. |
| Modulus.AcceptedModulusDoesNotDivide | aks2.py:108 | An accepted r does not divide n. |
| Poly.Mul | aks2.py:118-128 | The product has length r and every entry lies in [0, p). |
| Poly.PolyMult | aks2.py:118-128 | The in-place double loop returns `Mul(a, b, r, p)`: entry k is the sum of `a[i] * b[j]` over `(i + j) % r == k`, reduced modulo p. |
| Poly.AccumulateStep | aks2.py:125-126 | Reducing modulo p after each addition gives the same entry as reducing the full sum once. |
| Poly.AccumulateAll | aks2.py:123-126 | One inner step adds pair (i, j) to entry `(i + j) % r` and leaves the other entries as they were. |
| Poly.RowsDone | aks2.py:123-124 | A finished inner loop has added row i of the double sum. |
| Poly.CoefCommutes | aks2.py:123-126 | Each unreduced coefficient is symmetric in a and b. |
| Poly.MulCommutes | aks2.py:118-128 | `polyMult(a, b) == polyMult(b, a)`. |
| Poly.MulOneLeft | aks2.py:135-138 | `[1]` times a reduced list is that list. |
| PolyAlgebra.MulAssociates | aks2.py:118-128 | `polyMult(polyMult(a, b), c) == polyMult(a, polyMult(b, c))`. |
| PolyAlgebra.MulReducedRight | aks2.py:135-140 | Reducing a factor first does not change a product. So the unreduced `[a, 1]` acts like its reduction. |
| PolyAlgebra.PolyPowAdd | aks2.py:136-140 | `base^e1 * base^e2 == base^(e1 + e2)` for e2 >= 1. |
| PolyAlgebra.MultiplyStep | aks2.py:137-138 | If x is `base^ex` and poly stands for `base^ep`, then `x = polyMult(x, poly)` gives `base^(ex + ep)`. |
| PolyAlgebra.SquareStep | aks2.py:140 | `poly = polyMult(poly, poly)` turns `base^ep` into `base^(2 ep)`. |
| Congruence.BitLengthBounds | aks2.py:136-139 | `2^(L-1) <= n < 2^L` for `L = BitLength(n)`, so the loop runs once per binary digit. |
| Congruence.ExponentStep | aks2.py:137-139 | One round keeps `ex + ep * n`. |
| Congruence.RoundStep | aks2.py:136-140 | One round keeps the invariant `x * poly^n == [a, 1]^p`. |
| Congruence.CheckWrites | aks2.py:142-144 | The two indexed writes into r zeros give the vector `ExpectedAsWritten`. |
| Congruence.ExpectedAsWritten | aks2.py:142-144 | The expected vector has length r. |
| Congruence.IsCongruent | aks2.py:131-146 | The result is True exactly when `[a, 1]^p` under `polyMult` equals the `check` vector built as written. The loop runs `BitLength(p)` times. |
| Congruence.ExpectedReducedIsReduction | aks2.py:133 | `ExpectedReduced` is x^p + a reduced modulo (x^r - 1, p), the congruence named in the docstring. |
| Congruence.ChecksAgree | aks2.py:142-144 | When p >= 2, `p % r != 0` and `0 <= a < p`, the vector as written is the reduced one. |
| Congruence.OverwriteCounterexample | aks2.py:142-146 | For a = 1, p = 2, r = 2 the congruence holds, both sides being `[0, 0]`, yet the vector as written is `[1, 0]` and `is_congruent` returns False. |
| Aks.AksTest | aks2.py:8-34 | n <= 0 is a domain error. A table power is composite. Otherwise r is the smallest accepted modulus, and the verdict is composite exactly when the GCD screen fails, or n > r and some witness in [1, limit(phi(r))) fails `is_congruent`. |
| Aks.ScreenFailureIsSound | aks2.py:21-23 | A GCD-screen failure exhibits a divisor of n strictly between 1 and n, so n is not prime. |
| Aks.PrimeBelowModulus | aks2.py:26-27 | For n >= 2, a passed screen and n <= r imply that n is prime. |
| Aks.PrimePassesScreen | aks2.py:13-23 | A prime is not a table power and passes the GCD screen. |
| Aks.WitnessCheckIsIntended | aks2.py:29-32 | Where the witness gate runs (n > r, r from `get_r`, a in [1, n)), the comparison as written decides the intended congruence. |

## Left out

- `aks.py` is not part of this model. The file declares itself unused, and it relies on a foreign polynomial library with float coefficients.
- Floating-point evaluation of `log`, `pow`, `sqrt` and `floor` is not modelled. Exact integer tests or parameters replace it, as described above. Float rounding at the edges, such as `log(n, 2)` of an exact power of 2, is not captured.
- Euclid.Gcd: the model takes both inputs as natural numbers. With b <= 0 the source's loop does not run and it returns `a` as it is (`gcd(6, -4)` is 6); no caller passes negative values.
- Order.Ord: needs a ghost exponent that ends the search, and a positive modulus. Without such an exponent the source loops forever, and with modulus 0 it raises.
- Modulus.GetR: needs a ghost accepted modulus that bounds the search. That such an r always exists, a number-theoretic result, is not proved.
- PerfectPower.IsPerfectPower: requires n >= 1. For n <= 0 `log` raises, and `Aks.AksTest` models that as the `DomainError` verdict.
- Poly.PolyMult: requires r > 0 and p > 0. With either one 0, the source raises `ZeroDivisionError` at the first product, or returns early on empty inputs. The `nat` types also exclude a negative r (the source raises `IndexError`, as `[0] * r` is empty) and a negative p (the source returns entries in (p, 0]). No caller passes any of these values.
- Congruence.IsCongruent: requires r >= 1, and p is a natural number.
  - With r == 0 the source raises.
  - A negative p makes the source loop forever, because `n >>= 1` stays at -1.
  - The `check` list is modelled as a sequence updated by two index writes. It is local to the call, so no aliasing is lost.
- Aks.AksTest: the threshold `t` and the witness-range function `limit` are parameters supplied by the caller; the model does not check that they match the source's float expressions.
  - The witness gate is characterised, but not proved sound: AKS correctness is not proved.
  - For n = 1 the test returns Prime, as the source does.
- Aks.AksTest: the float power `pow(2, (log(n, 2) / b) + 1)` in `is_perfect_power` (aks2.py:67) overflows for b = 2 once n is about 2^2046 or more, so the source raises `OverflowError` for such n. The model has no such limit and returns Prime or Composite. PerfectPower.IsPerfectPower likewise uses the exact bound `x^b <= 2^b * n` with no overflow.
- Python integers are unbounded, like Dafny's `int`, so no wrap-around needs modelling.

## Findings

| source | as written | input that shows it | evidently intended | confidence | as-written member | corrected member |
|---|---|---|---|---|---|---|
| aks2.py:142-144 | `check[0] = a` then `check[p % r] = 1`: when `p % r == 0` the 1 replaces a, and a is not reduced modulo p | a = 1, p = 2, r = 2: `(x + 1)^2` reduces to `[0, 0]` and so does `x^2 + 1`, but `check` is `[1, 0]`, so `is_congruent(1, 2, 2)` is False for the prime 2 | `check` is x^p + a reduced modulo (x^r - 1, p): the two terms add at index 0 when `p % r == 0`, and every entry is taken modulo p | not executed | Congruence.OverwriteCounterexample | Congruence.ExpectedReducedIsReduction |

`aks_test` calls `is_congruent` only with p = n > r, where r is coprime to n, so `n % r != 0`. The witnesses satisfy a < n whenever the witness range ends at or below n. There `Congruence.ChecksAgree` shows that the two vectors coincide, and `Aks.WitnessCheckIsIntended` states the gate in terms of the corrected vector.
