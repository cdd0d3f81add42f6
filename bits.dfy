/** The unsigned-integer operations the ring buffer and the byte routines rely on:
    `&` on `usize`, powers of two and `usize::next_power_of_two`. */
module Bits {
  import opened Arith

  /** `n` is 1, 2, 4, 8, ... */
  predicate IsPowerOfTwo(n: nat)
    decreases n
  {
    n == 1 || (n >= 2 && n % 2 == 0 && IsPowerOfTwo(n / 2))
  }

  /** Bitwise AND of two unsigned integers, bit by bit from the least significant one. */
  function BitAnd(a: nat, b: nat): (r: nat)
    ensures r <= a && r <= b
    decreases a
  {
    if a == 0 || b == 0 then 0
    else 2 * BitAnd(a / 2, b / 2) + (if a % 2 == 1 && b % 2 == 1 then 1 else 0)
  }

  /** Splitting off the lowest bit: `x % (2h) == 2 * ((x / 2) % h) + x % 2`. */
  lemma ModDouble(x: nat, h: nat)
    requires h > 0
    ensures x % (2 * h) == 2 * ((x / 2) % h) + x % 2
  {
    var q, r := (x / 2) / h, (x / 2) % h;
    assert x / 2 == q * h + r;
    assert x == q * (2 * h) + (2 * r + x % 2);
    ModUnique(x, 2 * h, q, 2 * r + x % 2);
  }

  /** For a power-of-two `capacity`, masking with `capacity - 1` is reduction modulo `capacity`. */
  lemma {:induction false} MaskIsMod(x: nat, capacity: nat)
    requires IsPowerOfTwo(capacity)
    ensures BitAnd(x, capacity - 1) == x % capacity
    decreases capacity
  {
    if capacity == 1 {
    } else {
      var h := capacity / 2;
      MaskIsMod(x / 2, h);
      assert (capacity - 1) / 2 == h - 1 && (capacity - 1) % 2 == 1;
      ModDouble(x, h);
      if x == 0 {
      } else {
        assert BitAnd(x, capacity - 1) == 2 * BitAnd(x / 2, h - 1) + x % 2;
      }
    }
  }

  /** `usize::next_power_of_two`: the smallest power of two that is at least `c` (1 for 0 and 1). */
  function NextPowerOfTwo(c: nat): (r: nat)
    ensures IsPowerOfTwo(r) && c <= r
    ensures r == 1 || r / 2 < c
    decreases c
  {
    if c <= 1 then 1 else 2 * NextPowerOfTwo((c + 1) / 2)
  }

  /** Examples: a requested capacity of 10 rounds up to 16, 0 rounds up to 1, and 16 stays 16. */
  lemma NextPowerOfTwoExamples()
    ensures NextPowerOfTwo(10) == 16 && NextPowerOfTwo(0) == 1 && NextPowerOfTwo(16) == 16
  {
  }
}
