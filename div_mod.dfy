/** Facts about Euclidean division on naturals that the solver does not find unaided. */
module DivMod {

  /** Division with remainder has one answer. */
  lemma ModUnique(n: nat, d: nat, q: nat, r: nat)
    requires d > 0 && n == q * d + r && r < d
    ensures n / d == q && n % d == r
  {
    var q0, r0 := n / d, n % d;
    assert n == q0 * d + r0;
    assert (q0 - q) * d == r - r0;
    MulZero(q0 - q, d);
  }

  lemma MulZero(a: int, d: int)
    requires d > 0 && -d < a * d < d
    ensures a == 0
  {
  }

  /** The quotient times the divisor, plus the remainder, is the number. */
  lemma DivBounds(n: nat, d: nat)
    requires d > 0
    ensures (n / d) * d + n % d == n && n % d < d
  {
  }

  /** A multiple of `d` divides into its factor with nothing left. */
  lemma MulDiv(q: nat, d: nat)
    requires d > 0
    ensures (q * d) / d == q && (q * d) % d == 0
  {
    ModUnique(q * d, d, q, 0);
  }

  /** Adding a multiple of `d` does not change the remainder. */
  lemma ModAddMultiple(x: nat, y: nat, d: nat)
    requires d > 0
    ensures (x * d + y) % d == y % d
  {
    assert y == (y / d) * d + y % d;
    assert x * d + y == (x + y / d) * d + y % d;
    ModUnique(x * d + y, d, x + y / d, y % d);
  }

  /** Removing one block: how `(p + len) / d` and `(p + len) % d` change once `d` bytes are taken off. */
  lemma DivStep(n: nat, d: nat)
    requires d > 0 && n >= d
    ensures n / d == (n - d) / d + 1 && n % d == (n - d) % d
  {
    var m := n - d;
    assert m == (m / d) * d + m % d;
    assert n == (m / d + 1) * d + m % d;
    ModUnique(n, d, m / d + 1, m % d);
  }

  /** A positive multiple of `d` is at least `d`. */
  lemma AtLeastDivisor(m: nat, d: nat)
    requires d > 0 && m > 0 && m % d == 0
    ensures m >= d
  {
    assert m == (m / d) * d;
    MulMono(m / d, d);
  }

  lemma MulMono(a: nat, d: nat)
    requires a >= 1
    ensures a * d >= d
  {
  }

  /** Below the divisor the quotient is 0 and the number is its own remainder. */
  lemma DivSmall(n: nat, d: nat)
    requires n < d
    ensures n / d == 0 && n % d == n
  {
    ModUnique(n, d, 0, n);
  }
}
