/** Facts about multiplication and Euclidean division on naturals that the solver does not find alone. */
module Arithmetic {

  lemma DivMod(a: nat, p: nat)
    requires p > 0
    ensures a / p >= 0 && 0 <= a % p < p && a == (a / p) * p + a % p
  {
  }

  lemma MulNonNegative(a: nat, b: nat)
    ensures a * b >= 0
  {
  }

  lemma MulRegroup(v: nat, x: nat, y: nat)
    ensures (v * x) * y == v * (y * x)
  {
  }

  lemma {:induction false} MulMonotonic(a: nat, b: nat, w: nat)
    requires a <= b
    ensures a * w <= b * w
  {
    assert b * w == a * w + (b - a) * w;
  }

  /** If `a * w < b * w` with a positive `w`, then `a < b`. */
  lemma {:induction false} MulStrictCancel(a: nat, b: nat, w: nat)
    requires w > 0 && a * w < b * w
    ensures a < b
  {
    if a >= b {
      MulMonotonic(b, a, w);
    }
  }

  /** The quotient and remainder are the only ones with `n == q * p + r` and `0 <= r < p`. */
  lemma {:induction false} DivModUnique(n: nat, p: nat, q: nat, r: nat)
    requires p > 0 && r < p && n == q * p + r
    ensures n / p == q && n % p == r
  {
    DivMod(n, p);
    var q', r' := n / p, n % p;
    if q' < q {
      MulMonotonic(q' + 1, q, p);
    } else if q < q' {
      MulMonotonic(q + 1, q', p);
    }
  }

  lemma MultipleMod(k: nat, p: nat)
    requires p > 0
    ensures (k * p) % p == 0
  {
    DivModUnique(k * p, p, k, 0);
  }

  lemma Regroup(vx: nat, p: nat, vy: nat, d: nat)
    ensures 10 * (vx * p + vy) + d == vx * (10 * p) + (10 * vy + d)
  {
  }
}
