/**
  Facts about Euclidean division and remainder that the hash and probe
  proofs share. Each is stated once with a general modulus so the solver
  never has to reason about more than one product at a time.
 */
module Arith {

  lemma MulAtLeast(d: int, m: int)
    requires d >= 1 && m > 0
    ensures d * m >= m
  {
    assert d * m == (d - 1) * m + m;
  }

  /** Quotient and remainder are determined by `a == q * m + r` with `0 <= r < m`. */
  lemma DivModUnique(a: int, q: int, r: int, m: int)
    requires m > 0 && 0 <= r < m && a == q * m + r
    ensures a % m == r && a / m == q
  {
    var q', r' := a / m, a % m;
    assert a == q' * m + r';
    assert (q - q') * m == r' - r;
    if q > q' { MulAtLeast(q - q', m); }
    if q < q' { MulAtLeast(q' - q, m); }
  }

  /** Adding a multiple of m does not change the remainder. */
  lemma ShiftMod(x: int, k: int, m: int)
    requires m > 0
    ensures (x + k * m) % m == x % m
  {
    var q, r := x / m, x % m;
    assert x == q * m + r;
    assert x + k * m == (q + k) * m + r;
    DivModUnique(x + k * m, q + k, r, m);
  }

  /** Reducing a summand first does not change the remainder. */
  lemma ModAdd(a: int, b: int, m: int)
    requires m > 0
    ensures (a % m + b) % m == (a + b) % m
  {
    ShiftMod(a % m + b, a / m, m);
    assert a % m + b + (a / m) * m == a + b;
  }

  /** Reducing a factor first does not change the remainder of a product-plus-constant. */
  lemma ModMulAdd(a: int, p: nat, b: int, m: int)
    requires m > 0
    ensures ((a % m) * p + b) % m == (a * p + b) % m
  {
    var q := a / m;
    assert a == q * m + a % m;
    assert a * p == (q * p) * m + (a % m) * p by {
      assert a * p == (q * m + a % m) * p;
    }
    ShiftMod((a % m) * p + b, q * p, m);
  }
}
