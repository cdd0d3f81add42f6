/** Facts about Euclidean division shared by the number-theory, bit and ring-buffer models. */
module Arith {

  /** The quotient and remainder of Euclidean division are the only pair with `n == q * m + r, 0 <= r < m`. */
  lemma ModUnique(n: int, m: int, q: int, r: int)
    requires m > 0 && 0 <= r < m && n == q * m + r
    ensures n % m == r && n / m == q
  {
    var q', r' := n / m, n % m;
    assert n == q' * m + r';
    assert (q - q') * m == r' - r;
    if q - q' >= 1 {
      assert false;
    } else if q - q' <= -1 {
      assert false;
    }
  }

  /** Adding a multiple of the modulus does not change the remainder. */
  lemma ModAddMultiple(k: int, z: int, m: int)
    requires m > 0
    ensures (k * m + z) % m == z % m
  {
    var q, r := z / m, z % m;
    assert k * m + z == (k + q) * m + r;
    ModUnique(k * m + z, m, k + q, r);
  }

  /** Multiplication may reduce its left factor first. */
  lemma MulModLeft(x: int, y: int, m: int)
    requires m > 0
    ensures (x * y) % m == ((x % m) * y) % m
  {
    var q, r := x / m, x % m;
    assert x * y == (q * y) * m + r * y;
    ModAddMultiple(q * y, r * y, m);
  }

  /** Multiplication may reduce its right factor first. */
  lemma MulModRight(x: int, y: int, m: int)
    requires m > 0
    ensures (x * y) % m == (x * (y % m)) % m
  {
    assert x * y == y * x;
    assert x * (y % m) == (y % m) * x;
    MulModLeft(y, x, m);
  }

  /** A multiple of `d` leaves no remainder. */
  lemma ModOfMultiple(d: int, k: int)
    requires d > 0
    ensures (k * d) % d == 0
  {
    ModUnique(k * d, d, k, 0);
  }
}
