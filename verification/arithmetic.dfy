/** Integer facts shared by several days: Euclidean division and its
    uniqueness, and multiples. Dafny's `/` and `%` are Euclidean; the
    callers convert Rust's truncating operators where the sign matters. */
module Arithmetic {

  /** A non-zero multiple of `n` is at least `n` away from zero. */
  lemma MulAtLeast(d: int, n: int)
    requires n > 0
    ensures d >= 1 ==> d * n >= n
    ensures d <= -1 ==> d * n <= -n
  {
  }

  /** Euclidean division is unique: any quotient and remainder in range are
      the ones `/` and `%` compute. */
  lemma ModUnique(a: int, n: int, q: int, r: int)
    requires n > 0 && 0 <= r < n && a == n * q + r
    ensures a % n == r && a / n == q
  {
    var q2 := a / n;
    var r2 := a % n;
    assert a == n * q2 + r2;
    assert (q - q2) * n == r2 - r;
    MulAtLeast(q - q2, n);
  }

  /** Every multiple of `n` leaves remainder zero. */
  lemma MulMod(n: int, k: int)
    requires n > 0
    ensures (n * k) % n == 0
  {
    ModUnique(n * k, n, k, 0);
  }

  /** Adding a multiple of `n` does not change the remainder. */
  lemma AddMultiple(a: int, n: int, k: int)
    requires n > 0
    ensures (a + n * k) % n == a % n
  {
    var q := a / n;
    var r := a % n;
    assert a + n * k == n * (q + k) + r;
    ModUnique(a + n * k, n, q + k, r);
  }

  /** A common divisor of `b` and `r` divides `b * q + r`. */
  lemma CommonDivisor(g: int, b: int, r: int, q: int)
    requires g > 0 && b % g == 0 && r % g == 0
    ensures (b * q + r) % g == 0
  {
    var kb := b / g;
    assert b == g * kb;
    assert b * q == g * (kb * q) by {
      assert b * q == (g * kb) * q;
    }
    AddMultiple(r, g, kb * q);
  }
}
