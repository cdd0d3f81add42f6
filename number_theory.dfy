/** Integer number theory of src/math/general.rs: square-and-multiply powers, the extended
    Euclidean algorithm, modular inverse and power, the Miller–Rabin test, 2-adic splitting,
    Newton's integer square root and trial-division factoring. Fixed-width overflow is not
    modelled: every value is an unbounded integer. */
module NumberTheory {
  import opened Wrappers
  import opened Arith

  // ---------------------------------------------------------------- powers

  /** `b` raised to `e`, the reference for the square-and-multiply loops. */
  function Pow(b: int, e: nat): (r: int)
    ensures b >= 0 ==> r >= 0
    ensures b > 0 ==> r > 0
    decreases e
  {
    if e == 0 then 1 else b * Pow(b, e - 1)
  }

  lemma {:induction false} PowAdd(b: int, m: nat, n: nat)
    ensures Pow(b, m + n) == Pow(b, m) * Pow(b, n)
    decreases m
  {
    if m > 0 {
      PowAdd(b, m - 1, n);
      assert Pow(b, m + n) == b * Pow(b, m - 1 + n);
      MulAssoc(b, Pow(b, m - 1), Pow(b, n));
    }
  }

  lemma {:induction false} PowSquareBase(b: int, k: nat)
    ensures Pow(b, 2 * k) == Pow(b * b, k)
    decreases k
  {
    if k > 0 {
      PowSquareBase(b, k - 1);
      assert Pow(b, 2 * k) == b * (b * Pow(b, 2 * (k - 1)));
    }
  }

  /** One round of square-and-multiply: `b^e == (e odd ? b : 1) * (b*b)^(e/2)`. */
  lemma PowStep(b: int, e: nat)
    ensures Pow(b, e) == (if e % 2 == 1 then b else 1) * Pow(b * b, e / 2)
  {
    PowSquareBase(b, e / 2);
    if e % 2 == 1 {
      assert e == 2 * (e / 2) + 1;
    } else {
      assert e == 2 * (e / 2);
    }
  }

  /** `fast_power(base, exp, identity)` over integers: `exp & 1` is `exp % 2`, `exp >>= 1` is `exp / 2`.
      The result is `identity * base^exp`, so `identity` itself when `exp == 0`. */
  method FastPower(base: int, exp: nat, identity: int) returns (result: int)
    ensures result == identity * Pow(base, exp)
  {
    if exp == 0 {
      return identity;
    }
    var b, e := base, exp;
    result := identity;
    while e > 0
      invariant result * Pow(b, e) == identity * Pow(base, exp)
      decreases e
    {
      PowStep(b, e);
      if e % 2 == 1 {
        assert result * Pow(b, e) == (result * b) * Pow(b * b, e / 2);
        result := result * b;
      }
      b := b * b;
      e := e / 2;
    }
  }

  // ---------------------------------------------- Rust's truncating division

  function Abs(x: int): nat { if x < 0 then -x else x }

  /** Rust's `/` on `i64`: rounds toward zero, so the magnitude is the largest `k` with
      `k * |b| <= |a|` and the sign is that of `a * b`. */
  function Quot(a: int, b: int): (q: int)
    requires b != 0
    ensures 0 <= Abs(a) - Abs(q) * Abs(b) < Abs(b)
    ensures (a < 0) == (b < 0) ==> q >= 0
    ensures (a < 0) != (b < 0) ==> q <= 0
  {
    var k := Abs(a) / Abs(b);
    QuotientBounds(Abs(a), Abs(b));
    var q := if (a < 0) == (b < 0) then k else -k;
    assert Abs(q) == k;
    assert Abs(q) * Abs(b) == k * Abs(b);
    q
  }

  /** Euclidean division of naturals rounds down. */
  lemma QuotientBounds(n: nat, d: nat)
    requires d > 0
    ensures 0 <= n - (n / d) * d < d
  {
    assert n == (n / d) * d + n % d;
  }

  /** Rust's `%` on `i64`: takes the sign of the dividend. */
  function Rem(a: int, b: int): (r: int)
    requires b != 0
    ensures a == b * Quot(a, b) + r
    ensures Abs(r) < Abs(b)
    ensures (a >= 0 ==> 0 <= r) && (a <= 0 ==> r <= 0)
  {
    QuotRem(a, b);
    if a >= 0 then Abs(a) % Abs(b) else -(Abs(a) % Abs(b))
  }

  lemma QuotRem(a: int, b: int)
    requires b != 0
    ensures a == b * Quot(a, b) + (if a >= 0 then Abs(a) % Abs(b) else -(Abs(a) % Abs(b)))
  {
    var q, s := Abs(a) / Abs(b), Abs(a) % Abs(b);
    assert Abs(a) == Abs(b) * q + s;
    if a >= 0 && b > 0 {
      assert a == b * q + s;
    } else if a >= 0 {
      assert a == b * (-q) + s;
    } else if b > 0 {
      assert a == b * (-q) - s;
    } else {
      assert a == b * q - s;
    }
  }

  /** On non-negative operands Rust's `%` agrees with Euclidean `%`. */
  lemma RemOfNonNegative(a: int, b: int)
    requires a >= 0 && b > 0
    ensures Rem(a, b) == a % b
  {
  }

  // ------------------------------------------------------------ divisibility

  /** `d` divides `n`. */
  predicate Divides(d: int, n: int)
  {
    if d == 0 then n == 0 else n % d == 0
  }

  lemma DividesWitness(d: int, n: int)
    requires d != 0 && Divides(d, n)
    ensures n == d * (n / d)
  {
  }

  lemma DividesOfMultiple(d: int, k: int)
    ensures Divides(d, d * k)
  {
    if d > 0 {
      ModOfMultiple(d, k);
    } else if d < 0 {
      ModUnique(d * k, -d, -k, 0);
      assert (d * k) % (-d) == 0;
      // Euclidean remainder depends only on |d|
      var q := (d * k) / d;
      assert d * k == d * q + (d * k) % d;
      assert d * k == (-d) * (-q) + (d * k) % d;
      ModUnique(d * k, -d, -q, (d * k) % d);
    }
  }

  /** Common divisors of `m` and `n` divide every integer combination of them. */
  lemma DividesLinear(d: int, m: int, n: int, p: int, q: int)
    requires Divides(d, m) && Divides(d, n)
    ensures Divides(d, p * m + q * n)
  {
    if d != 0 {
      var km, kn := m / d, n / d;
      DividesWitness(d, m);
      DividesWitness(d, n);
      assert p * m + q * n == d * (p * km + q * kn);
      DividesOfMultiple(d, p * km + q * kn);
    }
  }

  /** The only divisors of 1 are 1 and -1. */
  lemma DividesOne(d: int)
    requires Divides(d, 1)
    ensures d == 1 || d == -1
  {
    if Abs(d) >= 2 {
      if d > 0 {
        ModUnique(1, d, 0, 1);
      } else {
        ModUnique(1, -d, 0, 1);
      }
    }
  }

  /** `g` is a greatest common divisor of `a` and `b`: a common divisor that every common divisor divides. */
  ghost predicate IsGcd(g: int, a: int, b: int)
  {
    Divides(g, a) && Divides(g, b) &&
    forall d :: Divides(d, a) && Divides(d, b) ==> Divides(d, g)
  }

  // ------------------------------------------------------- extended Euclid

  /** `extended_gcd(a, b)` with Rust's truncating `%` and `/`: returns `(g, x, y)` with
      `a*x + b*y == g`, and `g` divides both `a` and `b` (it is `±gcd(a, b)`). */
  function ExtendedGcd(a: int, b: int): (r: (int, int, int))
    ensures a * r.1 + b * r.2 == r.0
    ensures Divides(r.0, a) && Divides(r.0, b)
    ensures a >= 0 && b >= 0 ==> r.0 >= 0
    ensures a == 0 ==> r == (b, 0, 1)
    decreases Abs(a)
  {
    if a == 0 then (b, 0, 1)
    else
      var rest := ExtendedGcd(Rem(b, a), a);
      var g, x1, y1 := rest.0, rest.1, rest.2;
      BezoutStep(a, b, g, x1, y1);
      DividesLinear(g, a, Rem(b, a), Quot(b, a), 1);
      (g, y1 - Quot(b, a) * x1, x1)
  }

  lemma BezoutStep(a: int, b: int, g: int, x1: int, y1: int)
    requires a != 0
    requires Rem(b, a) * x1 + a * y1 == g
    ensures a * (y1 - Quot(b, a) * x1) + b * x1 == g
    ensures Quot(b, a) * a + 1 * Rem(b, a) == b
  {
    var q, r := Quot(b, a), Rem(b, a);
    assert b == a * q + r;
    assert b * x1 == a * q * x1 + r * x1;
    assert a * (y1 - q * x1) == a * y1 - a * q * x1;
  }

  /** Whatever the signs, the `g` of `extended_gcd` is a gcd of its arguments; for
      non-negative arguments it is THE (non-negative) gcd. */
  lemma ExtendedGcdIsGcd(a: int, b: int)
    ensures IsGcd(ExtendedGcd(a, b).0, a, b)
  {
    var r := ExtendedGcd(a, b);
    forall d | Divides(d, a) && Divides(d, b)
      ensures Divides(d, r.0)
    {
      DividesLinear(d, a, b, r.1, r.2);
    }
  }

  /** Any gcd is determined up to its sign. */
  lemma GcdUpToSign(g: int, h: int, a: int, b: int)
    requires IsGcd(g, a, b) && IsGcd(h, a, b)
    ensures Abs(g) == Abs(h)
  {
    assert Divides(g, h) && Divides(h, g);
    if g != 0 && h != 0 {
      DividesWitness(g, h);
      DividesWitness(h, g);
      var k, l := h / g, g / h;
      assert g == g * (k * l);
      assert k * l == 1;
      assert k == 1 || k == -1;
    }
  }

  // -------------------------------------------------------- modular inverse

  /** `r` is an inverse of `a` modulo `m`. */
  predicate IsInverse(a: int, r: int, m: int)
  {
    Divides(m, a * r - 1)
  }

  /** `mod_inverse(a, m)`. The source divides by `m` only after the gcd test, and with `m == 0`
      the gcd is 1 only for `a == 1`: that one call panics, so it is excluded. */
  function ModInverse(a: int, m: int): (r: Option<int>)
    requires m != 0 || a != 1
    ensures r.Some? ==> IsInverse(a, r.value, m)
    ensures r.Some? && m > 0 ==> 0 <= r.value < m
    ensures r.None? <==> ExtendedGcd(a, m).0 != 1
  {
    var e := ExtendedGcd(a, m);
    if e.0 != 1 then None
    else
      assert m != 0 by {
        if m == 0 { GcdOfZero(a); }
      }
      var v := Normalize(e.1, m);
      InverseFromBezout(a, m, e.1, e.2, v);
      Some(v)
  }

  lemma GcdOfZero(a: int)
    ensures ExtendedGcd(a, 0).0 == a
  {
    if a != 0 {
      assert Rem(0, a) == 0;
    }
  }

  /** Rust's remainder differs from its dividend by a multiple of the divisor. */
  lemma RemCongruent(x: int, m: int)
    requires m != 0
    ensures Divides(m, x - Rem(x, m))
  {
    assert x - Rem(x, m) == m * Quot(x, m);
    DividesOfMultiple(m, Quot(x, m));
  }

  /** `((x % m) + m) % m` with Rust's `%`: a representative of `x`'s residue class, in `[0, m)` for `m > 0`. */
  function Normalize(x: int, m: int): (v: int)
    requires m != 0
    ensures Divides(m, x - v)
    ensures m > 0 ==> 0 <= v < m
  {
    var r1 := Rem(x, m);
    var v := Rem(r1 + m, m);
    RemCongruent(x, m);
    RemCongruent(r1 + m, m);
    DividesOfMultiple(m, 1);
    DividesLinear(m, x - r1, (r1 + m) - v, 1, 1);
    DividesLinear(m, (x - r1) + ((r1 + m) - v), m * 1, 1, -1);
    assert x - v == 1 * ((x - r1) + ((r1 + m) - v)) + (-1) * (m * 1);
    v
  }

  /** A Bezout coefficient of `a`, shifted by a multiple of `m`, is an inverse of `a`. */
  lemma InverseFromBezout(a: int, m: int, x: int, y: int, v: int)
    requires m != 0 && a * x + m * y == 1
    requires Divides(m, x - v)
    ensures IsInverse(a, v, m)
  {
    DividesOfMultiple(m, 1);
    DividesLinear(m, m * 1, x - v, -y, -a);
    assert a * v - 1 == (-y) * (m * 1) + (-a) * (x - v);
  }

  /** When an inverse exists, every gcd of `a` and `m` divides 1. */
  lemma InverseForcesUnitGcd(a: int, m: int, r: int, g: int)
    requires IsInverse(a, r, m) && Divides(g, a) && Divides(g, m)
    ensures g == 1 || g == -1
  {
    var c := if m != 0 then (a * r - 1) / m else 0;
    if m != 0 {
      DividesWitness(m, a * r - 1);
    }
    assert r * a + (-c) * m == 1;
    DividesLinear(g, a, m, r, -c);
    DividesOne(g);
  }

  /** For `a >= 0` and `m > 1`, `mod_inverse` answers None exactly when `a` has no inverse
      modulo `m`, that is exactly when `gcd(a, m) != 1`. */
  lemma ModInverseComplete(a: int, m: int)
    requires a >= 0 && m > 1
    ensures ModInverse(a, m).None? <==> !IsGcd(1, a, m)
    ensures ModInverse(a, m).None? <==> forall r :: !IsInverse(a, r, m)
  {
    var e := ExtendedGcd(a, m);
    ExtendedGcdIsGcd(a, m);
    if IsGcd(1, a, m) {
      GcdUpToSign(e.0, 1, a, m);
    }
    if e.0 != 1 {
      forall r ensures !IsInverse(a, r, m) {
        if IsInverse(a, r, m) {
          InverseForcesUnitGcd(a, m, r, e.0);
        }
      }
    }
  }

  /** As written, a negative `a` can make `extended_gcd` return `g == -1`; `mod_inverse` then
      reports that -1 has no inverse modulo 3, although 2 is one. */
  lemma ModInverseMissesNegative()
    ensures ExtendedGcd(-1, 3) == (-1, 1, 0)
    ensures ModInverse(-1, 3) == None && IsInverse(-1, 2, 3)
  {
    assert Rem(3, -1) == 0 && Quot(3, -1) == -3;
  }

  /** Corrected `mod_inverse`: a gcd of -1 is a unit as well, and then `-x` is the inverse. */
  function ModInverseSigned(a: int, m: int): (r: Option<int>)
    requires m != 0
    ensures r.Some? ==> IsInverse(a, r.value, m) && (m > 0 ==> 0 <= r.value < m)
    ensures r.None? <==> forall s :: !IsInverse(a, s, m)
  {
    var e := ExtendedGcd(a, m);
    if e.0 == 1 || e.0 == -1 then
      var v := Normalize(e.0 * e.1, m);
      UnitBezout(a, m, e.0, e.1, e.2);
      InverseFromBezout(a, m, e.0 * e.1, e.0 * e.2, v);
      Some(v)
    else
      NoUnitGcdNoInverse(a, m, e.0);
      None
  }

  /** Multiplying `a*x + m*y == g` by a unit `g` gives a Bezout identity for 1. */
  lemma UnitBezout(a: int, m: int, g: int, x: int, y: int)
    requires g == 1 || g == -1
    requires a * x + m * y == g
    ensures a * (g * x) + m * (g * y) == 1
  {
    assert a * (g * x) + m * (g * y) == g * (a * x + m * y);
  }

  lemma NoUnitGcdNoInverse(a: int, m: int, g: int)
    requires Divides(g, a) && Divides(g, m) && g != 1 && g != -1
    ensures forall s :: !IsInverse(a, s, m)
  {
    forall s ensures !IsInverse(a, s, m) {
      if IsInverse(a, s, m) {
        InverseForcesUnitGcd(a, m, s, g);
      }
    }
  }

  // ------------------------------------------------------- modular powers

  /** Reducing the base first does not change a power's residue. */
  lemma {:induction false} PowModBase(x: int, e: nat, m: int)
    requires m > 0
    ensures Pow(x % m, e) % m == Pow(x, e) % m
    decreases e
  {
    if e > 0 {
      PowModBase(x, e - 1, m);
      calc {
        Pow(x % m, e) % m;
        ((x % m) * Pow(x % m, e - 1)) % m;
        { MulModRight(x % m, Pow(x % m, e - 1), m); }
        ((x % m) * (Pow(x % m, e - 1) % m)) % m;
        ((x % m) * (Pow(x, e - 1) % m)) % m;
        { MulModRight(x % m, Pow(x, e - 1), m); }
        ((x % m) * Pow(x, e - 1)) % m;
        { MulModLeft(x, Pow(x, e - 1), m); }
        (x * Pow(x, e - 1)) % m;
      }
    }
  }

  /** `mod_pow(base, exp, modulus)`: `base^exp mod modulus`, always below `modulus`, and 0 when
      `modulus == 1`. A zero modulus makes the source's `base %= modulus` panic. */
  method ModPow(base: nat, exp: nat, modulus: nat) returns (result: nat)
    requires modulus > 0
    ensures result == Pow(base, exp) % modulus
    ensures result < modulus
  {
    if modulus == 1 {
      return 0;
    }
    var b, e := base % modulus, exp;
    result := 1;
    PowModBase(base, exp, modulus);
    while e > 0
      invariant b < modulus && result < modulus
      invariant (result * Pow(b, e)) % modulus == Pow(base, exp) % modulus
      decreases e
    {
      var r' := if e % 2 == 1 then (result * b) % modulus else result;
      var b' := (b * b) % modulus;
      ModPowStep(result, b, e, modulus, r', b');
      result, b, e := r', b', e / 2;
    }
    assert result * Pow(b, e) == result;
    ModUnique(result, modulus, 0, result);
  }

  /** One round of the `mod_pow` loop keeps `result * base^exp` fixed modulo `m`. */
  lemma ModPowStep(r: int, b: int, e: nat, m: int, r': int, b': int)
    requires m > 0 && e > 0
    requires r' == (if e % 2 == 1 then (r * b) % m else r) && b' == (b * b) % m
    ensures (r' * Pow(b', e / 2)) % m == (r * Pow(b, e)) % m
  {
    var f := if e % 2 == 1 then b else 1;
    var p := Pow(b * b, e / 2);
    PowStep(b, e);
    assert Pow(b, e) == f * p;
    calc {
      (r' * Pow(b', e / 2)) % m;
      { MulModRight(r', Pow(b', e / 2), m); PowModBase(b * b, e / 2, m);
        MulModRight(r', p, m); }
      (r' * p) % m;
      { if e % 2 == 1 { MulModLeft(r * b, p, m); } }
      ((r * f) * p) % m;
      { MulAssoc(r, f, p); }
      (r * (f * p)) % m;
    }
  }

  lemma MulAssoc(a: int, b: int, c: int)
    ensures (a * b) * c == a * (b * c)
  {
  }

  // ------------------------------------------------------ 2-adic splitting

  /** The odd part of `n` and the exponent of 2 in it: the unique `(d, s)` with `n == d * 2^s`, `d` odd. */
  function TwoAdic(n: nat): (r: (nat, nat))
    requires n > 0
    decreases n
  {
    if n % 2 == 1 then (n, 0) else var t := TwoAdic(n / 2); (t.0, t.1 + 1)
  }

  /** `TwoAdic` describes the only such splitting. */
  lemma {:induction false} TwoAdicUnique(n: nat, d: nat, s: nat)
    requires n > 0 && n == d * Pow(2, s) && d % 2 == 1
    ensures TwoAdic(n) == (d, s)
    decreases n
  {
    if s == 0 {
      assert n == d;
    } else {
      assert n == 2 * (d * Pow(2, s - 1));
      TwoAdicUnique(n / 2, d, s - 1);
    }
  }

  /** `factor_power_of_two(n)`: `n == d * 2^s` with `d` odd. The source loops forever on 0. */
  method FactorPowerOfTwo(n: nat) returns (d: nat, s: nat)
    requires n > 0
    ensures n == d * Pow(2, s) && d % 2 == 1
    ensures (d, s) == TwoAdic(n)
  {
    d, s := n, 0;
    while d % 2 == 0
      invariant d > 0 && n == d * Pow(2, s)
      decreases d
    {
      assert d * Pow(2, s) == (d / 2) * Pow(2, s + 1);
      d := d / 2;
      s := s + 1;
    }
    TwoAdicUnique(n, d, s);
  }

  // ------------------------------------------------------------ Miller–Rabin

  /** The twelve bases `is_prime` tries, in order. */
  const Witnesses: seq<nat> := [2, 3, 5, 7, 11, 13, 17, 19, 23, 29, 31, 37]

  /** Base `a` does not witness that the odd `n` is composite: with `n - 1 == d * 2^s`, `d` odd,
      either `a^d == 1` or `a^(d * 2^j) == n - 1` for some `0 <= j < s` (all modulo `n`). */
  ghost predicate StrongProbablePrime(n: nat, a: nat)
    requires n > 1
  {
    var (d, s) := TwoAdic(n - 1);
    Pow(a, d) % n == 1 || exists j :: 0 <= j < s && Pow(a, d * Pow(2, j)) % n == n - 1
  }

  /** The answer `is_prime` promises: small cases by hand, then every witness below `n`. */
  ghost predicate MillerRabinAccepts(n: nat)
  {
    n > 1 && (n <= 3 ||
      (n % 2 != 0 && n % 3 != 0 &&
       forall i :: 0 <= i < |Witnesses| && Witnesses[i] < n ==> StrongProbablePrime(n, Witnesses[i])))
  }

  /** Squaring modulo `n` moves from `a^(d*2^j)` to `a^(d*2^(j+1))`. */
  lemma SquareStep(a: nat, d: nat, j: nat, n: nat, x: nat)
    requires n > 0 && x == Pow(a, d * Pow(2, j)) % n
    ensures Pow(x, 2) % n == Pow(a, d * Pow(2, j + 1)) % n
  {
    var k := d * Pow(2, j);
    var p := Pow(a, k);
    PowModBase(p, 2, n);
    SquareAsProduct(p);
    PowAdd(a, k, k);
    DoubleExponent(d, j);
  }

  lemma SquareAsProduct(p: int)
    ensures Pow(p, 2) == p * p
  {
    assert Pow(p, 2) == p * Pow(p, 1);
  }

  lemma DoubleExponent(d: nat, j: nat)
    ensures d * Pow(2, j + 1) == d * Pow(2, j) + d * Pow(2, j)
  {
    assert Pow(2, j + 1) == 2 * Pow(2, j);
  }

  /** `is_prime(n)`: the deterministic Miller–Rabin test with the witnesses above. The
      `take_while(a < n)` stops at the first witness that is not below `n`; as they increase,
      that is the same as trying exactly those below `n`. */
  method IsPrime(n: nat) returns (result: bool)
    ensures result <==> MillerRabinAccepts(n)
    ensures n <= 1 ==> !result
    ensures n == 2 || n == 3 ==> result
    ensures n > 3 && (n % 2 == 0 || n % 3 == 0) ==> !result
  {
    if n <= 1 {
      return false;
    }
    if n <= 3 {
      return true;
    }
    if n % 2 == 0 || n % 3 == 0 {
      return false;
    }
    var d, s := FactorPowerOfTwo(n - 1);
    assert s >= 1;
    var i := 0;
    while i < |Witnesses| && Witnesses[i] < n
      invariant 0 <= i <= |Witnesses|
      invariant forall k :: 0 <= k < i ==> StrongProbablePrime(n, Witnesses[k])
    {
      var probablyPrime := MillerRabinRound(n, Witnesses[i], d, s);
      if !probablyPrime {
        return false;
      }
      i := i + 1;
    }
    AcceptAfterWitnesses(n, i);
    return true;
  }

  /** The body of `is_prime`'s witness loop for one base `a`: `a^d`, then up to `s - 1` squarings,
      looking for 1 at the start or `n - 1` anywhere. */
  method MillerRabinRound(n: nat, a: nat, d: nat, s: nat) returns (probablyPrime: bool)
    requires n > 1 && TwoAdic(n - 1) == (d, s) && s >= 1
    ensures probablyPrime <==> StrongProbablePrime(n, a)
  {
    var x := ModPow(a, d, n);
    if x == 1 || x == n - 1 {
      SppAtStart(n, a, d, s);
      return true;
    }
    FirstPower(a, d);
    probablyPrime := false;
    var j := 1;
    while j < s
      invariant 1 <= j <= s
      invariant !probablyPrime
      invariant x == Pow(a, d * Pow(2, j - 1)) % n && x != n - 1
      invariant forall jj :: 0 <= jj < j - 1 ==> Pow(a, d * Pow(2, jj)) % n != n - 1
    {
      SquareStep(a, d, j - 1, n, x);
      x := ModPow(x, 2, n);
      if x == n - 1 {
        probablyPrime := true;
        SppAt(n, a, d, s, j);
        break;
      }
      j := j + 1;
    }
    if !probablyPrime {
      NotSpp(n, a, d, s);
    }
  }

  /** Every witness below `n` has been tried once the loop stops. */
  lemma AcceptAfterWitnesses(n: nat, i: nat)
    requires n > 3 && n % 2 != 0 && n % 3 != 0 && i <= |Witnesses|
    requires i == |Witnesses| || Witnesses[i] >= n
    requires forall k :: 0 <= k < i ==> StrongProbablePrime(n, Witnesses[k])
    ensures MillerRabinAccepts(n)
  {
    WitnessesIncrease();
  }

  lemma FirstPower(a: nat, d: nat)
    ensures Pow(a, d * Pow(2, 0)) == Pow(a, d)
  {
  }

  /** A witness that passes on the first power `a^d`. */
  lemma SppAtStart(n: nat, a: nat, d: nat, s: nat)
    requires n > 1 && TwoAdic(n - 1) == (d, s) && s >= 1
    requires Pow(a, d) % n == 1 || Pow(a, d) % n == n - 1
    ensures StrongProbablePrime(n, a)
  {
    if Pow(a, d) % n != 1 {
      FirstPower(a, d);
      assert Pow(a, d * Pow(2, 0)) % n == n - 1;
    }
  }

  /** A witness that reaches `n - 1` after `j` squarings. */
  lemma SppAt(n: nat, a: nat, d: nat, s: nat, j: nat)
    requires n > 1 && TwoAdic(n - 1) == (d, s) && j < s
    requires Pow(a, d * Pow(2, j)) % n == n - 1
    ensures StrongProbablePrime(n, a)
  {
  }

  /** A witness that never reaches 1 nor `n - 1`. */
  lemma NotSpp(n: nat, a: nat, d: nat, s: nat)
    requires n > 1 && TwoAdic(n - 1) == (d, s)
    requires Pow(a, d) % n != 1
    requires forall jj :: 0 <= jj < s ==> Pow(a, d * Pow(2, jj)) % n != n - 1
    ensures !StrongProbablePrime(n, a)
  {
  }

  lemma WitnessesIncrease()
    ensures forall k, l :: 0 <= k <= l < |Witnesses| ==> Witnesses[k] <= Witnesses[l]
  {
  }

  // ------------------------------------------------------ integer square root

  /** One Newton step never drops below the floor of the square root: `n < (y + 1)^2`. */
  lemma NewtonBound(n: nat, x: nat)
    requires x > 0
    ensures var y := (x + n / x) / 2; n < (y + 1) * (y + 1)
  {
    var q := n / x;
    var y := (x + q) / 2;
    DivisionBound(n, x, q);
    AmGm(x, q + 1);
    MulMonotone(x + q + 1, 2 * (y + 1));
    ScaleSquare(y + 1);
  }

  /** `n < x * (n / x + 1)`. */
  lemma DivisionBound(n: nat, x: nat, q: nat)
    requires x > 0 && q == n / x
    ensures n < x * (q + 1)
  {
    assert n == x * q + n % x;
  }

  /** Four times a product is at most the square of the sum. */
  lemma AmGm(a: int, b: int)
    ensures 4 * (a * b) <= (a + b) * (a + b)
  {
    assert (a + b) * (a + b) - 4 * (a * b) == (a - b) * (a - b);
  }

  lemma ScaleSquare(z: int)
    ensures (2 * z) * (2 * z) == 4 * (z * z)
  {
  }

  lemma MulMonotone(a: nat, b: nat)
    requires a <= b
    ensures a * a <= b * b
  {
    assert a * a <= a * b <= b * b;
  }

  /** Newton's iteration stops only at a root whose square does not exceed `n`. */
  lemma NewtonStop(n: nat, x: nat)
    requires x > 0 && (x + n / x) / 2 >= x
    ensures x * x <= n
  {
    if x * x > n {
      assert false;
    }
  }

  /** `isqrt(n)`: Newton's iteration from `x = n`; the result is the floor of the square root. */
  method Isqrt(n: nat) returns (root: nat)
    ensures root * root <= n < (root + 1) * (root + 1)
    ensures n <= 1 ==> root == n
  {
    if n <= 1 {
      return n;
    }
    var x := n;
    assert n / n == 1;
    var y := (x + 1) / 2;
    while y < x
      invariant 0 < x && n < (x + 1) * (x + 1)
      invariant y == (x + n / x) / 2
      decreases x
    {
      NewtonBound(n, x);
      x := y;
      y := (x + n / x) / 2;
    }
    NewtonStop(n, x);
    return x;
  }

  // ------------------------------------------------------------- factoring

  /** A prime number: at least 2, and no divisor strictly between 1 and itself. */
  ghost predicate IsPrimeNumber(p: int)
  {
    p >= 2 && forall d :: 2 <= d < p ==> p % d != 0
  }

  function Product(s: seq<nat>): nat
  {
    if s == [] then 1 else s[0] * Product(s[1..])
  }

  predicate Sorted(s: seq<nat>)
  {
    forall i, j :: 0 <= i < j < |s| ==> s[i] <= s[j]
  }

  lemma {:induction false} ProductAppend(s: seq<nat>, x: nat)
    ensures Product(s + [x]) == Product(s) * x
  {
    if s != [] {
      assert (s + [x])[1..] == s[1..] + [x];
      ProductAppend(s[1..], x);
    }
  }

  /** Only the empty product of primes is 1. */
  lemma {:induction false} ProductOfPrimesIsOne(s: seq<nat>)
    requires forall k :: 0 <= k < |s| ==> IsPrimeNumber(s[k])
    requires Product(s) == 1
    ensures s == []
  {
    if s != [] {
      assert false;
    }
  }

  lemma DividesTrans(e: int, d: int, n: int)
    requires Divides(e, d) && Divides(d, n)
    ensures Divides(e, n)
  {
    if d == 0 {
    } else if e == 0 {
    } else {
      DividesWitness(d, n);
      DividesWitness(e, d);
      assert n == e * ((d / e) * (n / d));
      DividesOfMultiple(e, (d / e) * (n / d));
    }
  }

  /** A positive factor of `n` has no divisor that `n` lacks. */
  lemma NoSmallDivisorOfQuotient(n: nat, i: nat, bound: nat)
    requires i > 0 && n % i == 0
    requires forall d :: 2 <= d < bound ==> n % d != 0
    ensures forall d :: 2 <= d < bound ==> (n / i) % d != 0
  {
    forall d | 2 <= d < bound ensures (n / i) % d != 0 {
      if (n / i) % d == 0 {
        assert n == (n / i) * i;
        DividesOfMultiple(n / i, i);
        DividesTrans(d, n / i, n);
      }
    }
  }

  /** The first divisor of `n` at or above 2 is prime. */
  lemma SmallestDivisorIsPrime(n: nat, i: nat)
    requires i >= 2 && n % i == 0
    requires forall d :: 2 <= d < i ==> n % d != 0
    ensures IsPrimeNumber(i)
  {
    forall d | 2 <= d < i ensures i % d != 0 {
      if i % d == 0 {
        DividesTrans(d, i, n);
      }
    }
  }

  /** The wheel steps over candidates divisible by 2 or 3, which cannot divide `n`. */
  lemma WheelSkip(n: nat, i: nat, inc: nat)
    requires n % 2 != 0 && n % 3 != 0 && i >= 5
    requires (i % 6 == 5 && inc == 2) || (i % 6 == 1 && inc == 4)
    requires forall d :: 2 <= d < i ==> n % d != 0
    requires n % i != 0
    ensures forall d :: 2 <= d < i + inc ==> n % d != 0
  {
    forall d | i < d < i + inc ensures n % d != 0 {
      if n % d == 0 {
        WheelGap(i, inc, d);
        if d % 2 == 0 {
          DividesTrans(2, d, n);
        } else {
          DividesTrans(3, d, n);
        }
      }
    }
  }

  /** The numbers the wheel steps over are multiples of 2 or of 3. */
  lemma WheelGap(i: nat, inc: nat, d: nat)
    requires (i % 6 == 5 && inc == 2) || (i % 6 == 1 && inc == 4)
    requires i < d < i + inc
    ensures d % 2 == 0 || d % 3 == 0
  {
    var k := i / 6;
    var j := d - 6 * k;
    assert i == 6 * k + i % 6;
    assert d == 6 * k + j && 2 <= j <= 6;
    ModAddMultiple(3 * k, j, 2);
    ModAddMultiple(2 * k, j, 3);
  }

  /** One turn of the wheel loop: after dividing out `i`, the invariant holds at the next
      candidate `i + inc`. */
  lemma WheelStep(m: nat, i: nat, inc: nat, factors: seq<nat>)
    requires i >= 5 && ((i % 6 == 5 && inc == 2) || (i % 6 == 1 && inc == 4))
    requires m % i != 0 && NoDivisorBelow(m, i) && FactorsUpTo(factors, i)
    ensures m % 2 != 0 && m % 3 != 0
    ensures NoDivisorBelow(m, i + inc) && FactorsUpTo(factors, i + inc)
    ensures ((i + inc) % 6 == 5 && 6 - inc == 2) || ((i + inc) % 6 == 1 && 6 - inc == 4)
  {
    assert m % 2 != 0 && m % 3 != 0;
    WheelSkip(m, i, inc);
    WheelAdvance(i, inc);
  }

  lemma ModSelf(n: int)
    ensures n != 0 ==> n % n == 0
  {
  }

  /** The wheel alternates steps of 2 and 4 over the numbers `6k ± 1`. */
  lemma WheelAdvance(i: nat, inc: nat)
    requires (i % 6 == 5 && inc == 2) || (i % 6 == 1 && inc == 4)
    ensures ((i + inc) % 6 == 5 && 6 - inc == 2) || ((i + inc) % 6 == 1 && 6 - inc == 4)
  {
  }

  /** What trial division leaves over, once `i * i > n`, is 1 or a prime of at least `i`. */
  lemma RemainderIsPrime(n: nat, i: nat)
    requires n > 1 && i >= 2 && i * i > n
    requires forall d :: 2 <= d < i ==> n % d != 0
    ensures IsPrimeNumber(n) && n >= i
  {
    if n < i {
      ModSelf(n);
      assert false;
    }
    forall d | 2 <= d < n ensures n % d != 0 {
      if n % d == 0 {
        var k := SmallFactor(n, d, i);
        assert false;
      }
    }
  }

  /** A number below `i * i` that splits as `d * e` has a divisor in `[2, i)`: `d` itself, or
      else its cofactor. */
  lemma SmallFactor(n: nat, d: nat, i: nat) returns (k: nat)
    requires 2 <= d < n && n % d == 0 && i * i > n
    ensures 2 <= k < i && n % k == 0
  {
    var e := n / d;
    assert n == d * e;
    if d < i {
      k := d;
    } else {
      MulLe(i, e, d, e);
      assert i * (i - e) == i * i - i * e;
      PositiveFactor(i, i - e);
      assert d * (e - 1) == n - d;
      PositiveFactor(d, e - 1);
      ModOfMultiple(e, d);
      k := e;
    }
  }

  /** A positive product with a positive factor has a positive cofactor. */
  lemma PositiveFactor(a: int, b: int)
    requires a > 0 && a * b > 0
    ensures b > 0
  {
  }

  /** Products are monotone in both non-negative factors. */
  lemma MulLe(a: nat, b: nat, c: nat, d: nat)
    requires a <= c && b <= d
    ensures a * b <= c * d
  {
    assert a * b <= c * b;
    assert c * b <= c * d;
  }

  /** `m` has no divisor in `[2, bound)`. */
  ghost predicate NoDivisorBelow(m: nat, bound: nat)
  {
    forall d :: 2 <= d < bound ==> m % d != 0
  }

  /** The factors found so far: primes, in order, none above `bound`. */
  ghost predicate FactorsUpTo(factors: seq<nat>, bound: nat)
  {
    Sorted(factors) && forall k :: 0 <= k < |factors| ==> IsPrimeNumber(factors[k]) && factors[k] <= bound
  }

  /** The inner loop `while n % p == 0 { factors.push(p); n /= p; }` that `prime_factors` runs for
      2, for 3 and for every wheel candidate: `p` is pushed as often as it divides `m`. */
  method DivideOut(m: nat, p: nat, factors: seq<nat>) returns (m': nat, factors': seq<nat>)
    requires m >= 1 && p >= 2
    requires NoDivisorBelow(m, p) && FactorsUpTo(factors, p)
    ensures m' >= 1 && Product(factors') * m' == Product(factors) * m
    ensures m' % p != 0 && m' <= m
    ensures NoDivisorBelow(m', p) && FactorsUpTo(factors', p)
  {
    m', factors' := m, factors;
    while m' % p == 0
      invariant m' >= 1 && m' <= m && Product(factors') * m' == Product(factors) * m
      invariant NoDivisorBelow(m', p) && FactorsUpTo(factors', p)
      decreases m'
    {
      SmallestDivisorIsPrime(m', p);
      QuotientShrinks(m', p);
      PushFactor(factors', p, m');
      NoSmallDivisorOfQuotient(m', p, p);
      factors' := factors' + [p];
      m' := m' / p;
    }
  }

  lemma QuotientShrinks(m: nat, p: nat)
    requires m >= 1 && p >= 2 && m % p == 0
    ensures 1 <= m / p < m
  {
    assert m == p * (m / p);
  }

  /** Moving a factor `p` of `m` from `m` into the list keeps the product. */
  lemma PushFactor(f: seq<nat>, p: nat, m: nat)
    requires p > 0 && m % p == 0
    ensures Product(f + [p]) * (m / p) == Product(f) * m
  {
    ProductAppend(f, p);
    assert m == p * (m / p);
    assert Product(f) * p * (m / p) == Product(f) * (p * (m / p));
  }

  lemma SquareBound(i: nat, m: nat)
    requires i >= 1 && i * i <= m
    ensures i <= m
  {
    assert i * 1 <= i * i;
  }

  /** `prime_factors(n)`: trial division by 2, by 3, then by the 6k±1 wheel 5, 7, 11, 13, ...
      while `i * i <= n`, and the leftover if it exceeds 1. The source loops forever on 0. */
  method PrimeFactors(n: nat) returns (factors: seq<nat>)
    requires n >= 1
    ensures Product(factors) == n
    ensures forall k :: 0 <= k < |factors| ==> IsPrimeNumber(factors[k])
    ensures Sorted(factors)
    ensures n == 1 ==> factors == []
  {
    var m;
    m, factors := DivideOut(n, 2, []);
    m, factors := DivideOut(m, 3, factors);
    var i, inc := 5, 2;
    assert m % 4 != 0 by {
      if m % 4 == 0 { DividesTrans(2, 4, m); }
    }
    while i * i <= m
      invariant m >= 1 && Product(factors) * m == n
      invariant m % 2 != 0 && m % 3 != 0
      invariant i >= 5 && ((i % 6 == 5 && inc == 2) || (i % 6 == 1 && inc == 4))
      invariant m <= n && i <= n + 4
      invariant NoDivisorBelow(m, i) && FactorsUpTo(factors, i)
      decreases n + 4 - i
    {
      SquareBound(i, m);
      m, factors := DivideOut(m, i, factors);
      WheelStep(m, i, inc, factors);
      i := i + inc;
      inc := 6 - inc;
    }
    if m > 1 {
      RemainderIsPrime(m, i);
      ProductAppend(factors, m);
      factors := factors + [m];
    }
    if n == 1 {
      ProductOfPrimesIsOne(factors);
    }
  }
}
