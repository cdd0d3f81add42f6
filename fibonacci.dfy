/** Fast-doubling Fibonacci of src/math/fib.rs: `fib_luc(n)` computes the pair of the n-th
    Fibonacci and Lucas numbers by halving `n`; `BigInt` is Dafny's unbounded `int`. */
module Fibonacci {

  /** The Fibonacci numbers: 0, 1, 1, 2, 3, 5, ... */
  function F(n: nat): nat
  {
    if n == 0 then 0 else if n == 1 then 1 else F(n - 1) + F(n - 2)
  }

  /** The Lucas numbers: 2, 1, 3, 4, 7, 11, ... */
  function L(n: nat): nat
  {
    if n == 0 then 2 else if n == 1 then 1 else L(n - 1) + L(n - 2)
  }

  /** `(-1)^n`. */
  function Sign(n: nat): int
  {
    if n % 2 == 0 then 1 else -1
  }

  // ------------------------------------------------------------ identities

  /** `L(n) == 2 F(n+1) - F(n)`. */
  lemma {:induction false} LucasFromFib(n: nat)
    ensures L(n) == 2 * F(n + 1) - F(n)
    decreases n
  {
    if n >= 2 {
      LucasFromFib(n - 1);
      LucasFromFib(n - 2);
    }
  }

  /** The addition law `F(a+b+1) == F(a+1) F(b+1) + F(a) F(b)`. */
  lemma {:induction false} FibAddition(a: nat, b: nat)
    ensures F(a + b + 1) == F(a + 1) * F(b + 1) + F(a) * F(b)
    decreases a
  {
    if a > 0 {
      FibAddition(a - 1, b + 1);
      assert a - 1 + (b + 1) + 1 == a + b + 1;
      Regroup(F(a + b + 1), F(a), F(a - 1), F(b + 1), F(b), F(b + 2), F(a + 1));
    }
  }

  /** The algebra of one step of the addition law. */
  lemma Regroup(x: int, p: int, q: int, r: int, s: int, t: int, u: int)
    requires x == p * t + q * r && t == r + s && u == p + q
    ensures x == u * r + p * s
  {
  }

  /** `F(n+1)^2 - F(n+1) F(n) - F(n)^2 == (-1)^n`, a form of Cassini's identity. */
  lemma {:induction false} Cassini(n: nat)
    ensures F(n + 1) * F(n + 1) - F(n + 1) * F(n) - F(n) * F(n) == Sign(n)
    decreases n
  {
    if n > 0 {
      Cassini(n - 1);
      var a: int, b: int, c: int := F(n), F(n - 1), F(n + 1);
      assert c == a + b;
      assert a * a - a * b - b * b == Sign(n - 1);
      assert Sign(n) == -Sign(n - 1);
      CassiniStep(a, b);
      assert c * c - c * a - a * a == (a + b) * (a + b) - (a + b) * a - a * a;
    }
  }

  lemma CassiniStep(a: int, b: int)
    ensures (a + b) * (a + b) - (a + b) * a - a * a == -(a * a - a * b - b * b)
  {
  }

  /** The doubling identities the even step relies on. */
  lemma Doubling(m: nat)
    ensures F(2 * m) == F(m) * L(m)
    ensures L(2 * m) == L(m) * L(m) - 2 * Sign(m)
  {
    LucasFromFib(m);
    LucasFromFib(2 * m);
    FibAddition(m, m);
    Cassini(m);
    var a: int, b: int, l: int := F(m + 1), F(m), L(m);
    assert l == 2 * a - b;
    if m > 0 {
      FibAddition(m - 1, m);
      var c: int := F(m - 1);
      assert a == b + c;
      assert F(2 * m) == b * a + c * b;
      DoublingFib(a, b, c, l);
    }
    assert F(2 * m) == b * l;
    DoublingAlgebra(a, b, l, Sign(m));
  }

  lemma DoublingFib(a: int, b: int, c: int, l: int)
    requires a == b + c && l == 2 * a - b
    ensures b * a + c * b == b * l
  {
  }

  lemma DoublingAlgebra(a: int, b: int, l: int, sign: int)
    requires l == 2 * a - b && a * a - a * b - b * b == sign
    ensures 2 * (a * a + b * b) - b * l == l * l - 2 * sign
  {
  }

  /** The odd step: `F(n-1) + L(n-1)` and `5 F(n-1) + L(n-1)` are twice `F(n)` and `L(n)`. */
  lemma OddStep(n: nat)
    ensures F(n) + L(n) == 2 * F(n + 1)
    ensures 5 * F(n) + L(n) == 2 * L(n + 1)
  {
    LucasFromFib(n);
    LucasFromFib(n + 1);
  }

  // ---------------------------------------------------------------- fib_luc

  /** `fib_luc(n)` as written. `n & 1 == 1` is `n % 2 == 1` and `n >>= 1` is `n / 2` for `n > 0`;
      `>> 1` on a `BigInt` is floor division by 2. A negative `n` multiplies both components
      of `fib_luc(-n)` by `(-1)^(-n)`. */
  function FibLuc(n: int): (r: (int, int))
    ensures n >= 0 ==> r == (F(n), L(n))
    ensures n < 0 ==> r == (Sign(-n) * F(-n), Sign(-n) * L(-n))
    decreases if n < 0 then 1 - 2 * n else 2 * n
  {
    if n == 0 then (0, 2)
    else if n < 0 then
      var m := -n;
      var p := FibLuc(m);
      var k := if m % 2 == 0 then 1 else -1;
      (p.0 * k, p.1 * k)
    else if n % 2 == 1 then
      var p := FibLuc(n - 1);
      OddStep(n - 1);
      ((p.0 + p.1) / 2, (5 * p.0 + p.1) / 2)
    else
      var h := n / 2;
      var k := (h % 2) * 2 - 1;
      var p := FibLuc(h);
      Doubling(h);
      (p.0 * p.1, p.1 * p.1 + 2 * k)
  }

  /** `fib(n)`: the first component of `fib_luc(n)`, the n-th Fibonacci number for `n >= 0`. */
  function Fib(n: int): (r: int)
    ensures n >= 0 ==> r == F(n)
  {
    FibLuc(n).0
  }

  // ------------------------------------------------------ negative indices

  /** The Fibonacci and Lucas numbers extended to all integers by the recurrence
      `X(n) == X(n-1) + X(n-2)`: `F(-m) == (-1)^(m+1) F(m)` and `L(-m) == (-1)^m L(m)`. */
  function NegaF(n: int): int
  {
    if n >= 0 then F(n) else -Sign(-n) * F(-n)
  }

  function NegaL(n: int): int
  {
    if n >= 0 then L(n) else Sign(-n) * L(-n)
  }

  /** The extended sequences satisfy the two-term recurrence at every integer index. */
  lemma NegaRecurrence(n: int)
    ensures NegaF(n) == NegaF(n - 1) + NegaF(n - 2)
    ensures NegaL(n) == NegaL(n - 1) + NegaL(n - 2)
  {
    if n >= 2 {
      assert NegaF(n) == F(n) == F(n - 1) + F(n - 2);
      assert NegaL(n) == L(n) == L(n - 1) + L(n - 2);
    } else if n == 1 {
      NegaAt(-1);
    } else if n == 0 {
      NegaAt(-1);
      NegaAt(-2);
      assert F(2) == 1 && L(2) == 3;
    } else {
      var m: nat := -n;
      assert F(m + 2) == F(m + 1) + F(m) && L(m + 2) == L(m + 1) + L(m);
      NegaAt(n);
      NegaAt(n - 1);
      NegaAt(n - 2);
      if m % 2 == 0 {
        assert (m + 1) % 2 == 1 && (m + 2) % 2 == 0;
        assert NegaF(n) + F(m) == 0 && NegaF(n - 1) == F(m + 1) && NegaF(n - 2) + F(m + 2) == 0;
        assert NegaL(n) == L(m) && NegaL(n - 1) + L(m + 1) == 0 && NegaL(n - 2) == L(m + 2);
      } else {
        assert (m + 1) % 2 == 0 && (m + 2) % 2 == 1;
        assert NegaF(n) == F(m) && NegaF(n - 1) + F(m + 1) == 0 && NegaF(n - 2) == F(m + 2);
        assert NegaL(n) + L(m) == 0 && NegaL(n - 1) == L(m + 1) && NegaL(n - 2) + L(m + 2) == 0;
      }
    }
  }

  /** At a negative index the extended sequences are the plain ones with alternating signs. */
  lemma NegaAt(n: int)
    requires n < 0
    ensures (-n) % 2 == 0 ==> NegaF(n) + F(-n) == 0 && NegaL(n) == L(-n)
    ensures (-n) % 2 == 1 ==> NegaF(n) == F(-n) && NegaL(n) + L(-n) == 0
  {
  }

  /** A witness: `fib(-1) == -1` where the extended sequence has `1`, so that
      `fib(1) == fib(0) + fib(-1)` fails. */
  lemma FibMinusOne()
    ensures Fib(-1) == -1 && NegaF(-1) == 1
    ensures Fib(1) != Fib(0) + Fib(-1)
  {
    assert FibLuc(-1) == (-1, -1);
  }

  /** `fib_luc` with the sign of the Fibonacci component corrected for negative indices. */
  function FibLucSigned(n: int): (r: (int, int))
    ensures r == (NegaF(n), NegaL(n))
  {
    if n < 0 then
      var m := -n;
      var p := FibLuc(m);
      var k := if m % 2 == 0 then 1 else -1;
      (-(p.0 * k), p.1 * k)
    else FibLuc(n)
  }

  /** The corrected `fib`: the n-th Fibonacci number at every integer index, so that the
      recurrence holds everywhere. */
  function FibSigned(n: int): (r: int)
    ensures r == NegaF(n)
  {
    FibLucSigned(n).0
  }

  lemma FibSignedRecurrence(n: int)
    ensures FibSigned(n) == FibSigned(n - 1) + FibSigned(n - 2)
  {
    NegaRecurrence(n);
  }

  /** The values asserted by the unit tests of `fib_luc` (src/math/fib.rs:35-54). */
  lemma FibTestValues()
    ensures Fib(0) == 0 && Fib(1) == 1 && Fib(2) == 1
    ensures Fib(3) == 2 && Fib(4) == 3 && Fib(5) == 5
    ensures Fib(10) == 55 && Fib(15) == 610 && Fib(20) == 6765
  {
    assert F(2) == 1 && F(3) == 2 && F(4) == 3 && F(5) == 5 && F(6) == 8;
    assert F(7) == 13 && F(8) == 21 && F(9) == 34 && F(10) == 55;
    assert F(11) == 89 && F(12) == 144 && F(13) == 233 && F(14) == 377 && F(15) == 610;
    assert F(16) == 987 && F(17) == 1597 && F(18) == 2584 && F(19) == 4181 && F(20) == 6765;
  }
}
