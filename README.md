# utils: verified model of the number theory, Fibonacci, lock-free containers and byte routines

This Dafny project models the core of the Rust crate `utils` and proves properties of the
model. The core has five parts:

- `src/math/general.rs` holds integer number theory:
  - square-and-multiply power;
  - extended Euclid, modular inverse and modular power;
  - Miller–Rabin primality and 2-adic splitting;
  - Newton's integer square root and wheel trial-division factoring.
- `src/math/fib.rs` holds fast-doubling Fibonacci/Lucas pairs.
- `src/lfs/stack.rs` holds a Treiber stack.
- `src/lfs/queue.rs` holds two queues:
  - `LockFreeQueue`, an unbounded sentinel-based linked queue;
  - `BoundedLockFreeQueue`, a bounded ring buffer whose slot array has a power-of-two length.
- `src/unsafe/mem.rs` holds the byte routines:
  - `fast_memset`, `fast_memcpy` and `secure_zero_memory`;
  - bounds-checked `MemoryAccess`;
  - `MemoryBlock` and its `resize`.

## Layout

| file | module | models |
|---|---|---|
| `wrappers.dfy` | `Wrappers` | `Option` and `Result` |
| `arith.dfy` | `Arith` | facts about Euclidean `/` and `%` |
| `bits.dfy` | `Bits` | `&` on `usize`, powers of two, `next_power_of_two` |
| `number_theory.dfy` | `NumberTheory` | `src/math/general.rs` |
| `fibonacci.dfy` | `Fibonacci` | `src/math/fib.rs` |
| `logs.dfy` | `Logs` | the doubled drop log of the as-written stack and queue |
| `stack.dfy` | `Stack` | `src/lfs/stack.rs` |
| `queue.dfy` | `Queue` | `src/lfs/queue.rs` |
| `memory.dfy` | `Memory` | `src/unsafe/mem.rs` |

## Modelling choices

- **Integers.** Integers are unbounded.
  - Rust's truncating `/` and `%` on `i64` are written out as `Quot` and `Rem`.
  - `extended_gcd` and `mod_inverse` are therefore modelled for every sign.
  - `BigInt` is `int`.
- **Loops.** The number-theory loops are methods with loop invariants. Each is proved against a
  specification function: `Pow`, `TwoAdic`, `MillerRabinAccepts`, `Product` of primes.
- **One thread.** The containers are classes whose methods change fields in place.
  - Every compare-and-swap in a retry loop succeeds. The one exception is the best-effort tail
    swing at the end of `LockFreeQueue::enqueue`: its outcome is the parameter `swingSucceeds`,
    so the model must handle a tail that lags one node behind.
  - Ghost logs track resources: `Dropped` lists values whose destructor ran, and `Freed` lists
    nodes whose storage was released.
- **Bytes.** Byte buffers are `array<Byte>`.
  - A raw pointer to `n` valid bytes is an array of at least `n` bytes.
  - `ptr::copy_nonoverlapping` inside one buffer requires that its ranges are disjoint, so
    every call in `fast_memset` proves that they are.
- **Allocation.** Whether the allocator returns a block is a parameter (`allocOk`,
  `reallocOk`).

## Model

| member | source | states |
|---|---|---|
| `NumberTheory.FastPower` | src/math/general.rs:4-21 | the result is `identity * base^exp`, so `identity` unchanged when `exp == 0`; the loop keeps `result * base^exp` fixed |
| `NumberTheory.PowStep` | src/math/general.rs:13-19 | one square-and-multiply round: `b^e == (e odd ? b : 1) * (b*b)^(e/2)` |
| `NumberTheory.Quot` | src/math/general.rs:29 | Rust's `/` on `i64` rounds toward zero: `Abs(q)` is the largest `k` with `k * Abs(b) <= Abs(a)`, and `q` is never of the opposite sign to `a * b` |
| `NumberTheory.Rem` | src/math/general.rs:28-29 | Rust's `%` on `i64`: `a == b*quot + r`, `Abs(r) < Abs(b)`, and `r` has the sign of `a` |
| `NumberTheory.ExtendedGcd` | src/math/general.rs:23-33 | Bezout: `a*x + b*y == g`; `g` divides `a` and `b`; `g >= 0` for non-negative inputs; `extended_gcd(0, b) == (b, 0, 1)` |
| `NumberTheory.ExtendedGcdIsGcd` | src/math/general.rs:23-33 | every common divisor of `a` and `b` divides `g`, so `g` is a gcd |
| `NumberTheory.GcdUpToSign` | src/math/general.rs:23-33 | two gcds of the same pair agree up to sign |
| `NumberTheory.Normalize` | src/math/general.rs:40 | `((x % m) + m) % m` with Rust's `%` is congruent to `x` modulo `m`, and in `[0, m)` for `m > 0` |
| `NumberTheory.ModInverse` | src/math/general.rs:35-42 | None iff `extended_gcd(a, m).0 != 1`; otherwise `a*r ≡ 1 (mod m)` and `0 <= r < m` for `m > 0` |
| `NumberTheory.ModInverseComplete` | src/math/general.rs:35-42 | for `a >= 0`, `m > 1`: None iff `gcd(a, m) != 1`, iff no inverse exists |
| `NumberTheory.ModInverseMissesNegative` | src/math/general.rs:35-42 | as written, `mod_inverse(-1, 3)` is None although 2 is an inverse of -1 modulo 3 |
| `NumberTheory.ModInverseSigned` | src/math/general.rs:35-42 | corrected: returns an inverse in `[0, m)` whenever one exists, and None iff none exists |
| `NumberTheory.PowModBase` | src/math/general.rs:49 | reducing the base modulo `m` first keeps `base^exp mod m` |
| `NumberTheory.ModPowStep` | src/math/general.rs:52-58 | one round of the `mod_pow` loop keeps `result * base^exp` fixed modulo `m` |
| `NumberTheory.ModPow` | src/math/general.rs:44-61 | the result is `base^exp mod modulus` and below `modulus`; 0 when `modulus == 1` |
| `NumberTheory.TwoAdicUnique` | src/math/general.rs:102-112 | `n == d * 2^s` with `d` odd has exactly one solution |
| `NumberTheory.FactorPowerOfTwo` | src/math/general.rs:102-112 | for `n > 0`, the result satisfies `n == d * 2^s` with `d` odd |
| `NumberTheory.MillerRabinRound` | src/math/general.rs:79-96 | the witness loop body answers "probably prime" iff `a^d ≡ 1` or `a^(d*2^j) ≡ n-1` for some `j < s` |
| `NumberTheory.AcceptAfterWitnesses` | src/math/general.rs:78 | stopping `take_while(a < n)` at the first witness `>= n` has tried every witness below `n` |
| `NumberTheory.IsPrime` | src/math/general.rs:63-100 | iff the Miller–Rabin acceptance with the 12 witnesses; false for `n <= 1`, true for 2 and 3, false for `n > 3` divisible by 2 or 3 |
| `NumberTheory.NewtonBound` | src/math/general.rs:123-124 | a Newton step `(x + n/x)/2` never drops below the floor of the square root |
| `NumberTheory.NewtonStop` | src/math/general.rs:122 | when the iteration stops (`y >= x`), `x*x <= n` |
| `NumberTheory.Isqrt` | src/math/general.rs:114-128 | `x*x <= n < (x+1)*(x+1)`; 0 and 1 map to themselves |
| `NumberTheory.SmallestDivisorIsPrime` | src/math/general.rs:148-150 | a divisor of `n` with no smaller divisor of `n` above 1 is prime |
| `NumberTheory.WheelSkip` | src/math/general.rs:153-154 | the 6k±1 wheel skips only candidates divisible by 2 or 3, which cannot divide `n` |
| `NumberTheory.RemainderIsPrime` | src/math/general.rs:157-159 | what is left once `i*i > n` is prime (when above 1) |
| `NumberTheory.SmallFactor` | src/math/general.rs:147-159 | a composite below `i*i` has a divisor in `[2, i)`, which is why trial division may stop at `i*i > n` |
| `NumberTheory.DivideOut` | src/math/general.rs:134-151 | the inner `while n % p == 0` loop keeps `product(factors) * n` and leaves `n` without factor `p` |
| `NumberTheory.PrimeFactors` | src/math/general.rs:131-162 | for `n >= 1`, the result is a nondecreasing list of primes whose product is `n`; empty for 1 |
| `Fibonacci.LucasFromFib` | src/math/fib.rs:19-27 | `L(n) == 2F(n+1) - F(n)` |
| `Fibonacci.FibAddition` | src/math/fib.rs:24-27 | `F(a+b+1) == F(a+1)F(b+1) + F(a)F(b)` |
| `Fibonacci.Cassini` | src/math/fib.rs:25 | `F(n+1)^2 - F(n+1)F(n) - F(n)^2 == (-1)^n`, the source of the `±2` term |
| `Fibonacci.Doubling` | src/math/fib.rs:24-27 | even step: `F(2m) == F(m)L(m)`, `L(2m) == L(m)^2 + 2k` with `k == -(-1)^m` |
| `Fibonacci.OddStep` | src/math/fib.rs:19-22 | odd step: `F(n-1)+L(n-1) == 2F(n)` and `5F(n-1)+L(n-1) == 2L(n)`, so `>> 1` halves exactly |
| `Fibonacci.FibLuc` | src/math/fib.rs:7-28 | `(F(n), L(n))` for `n >= 0`, `(0, 2)` at 0; for `n < 0`, both components of `fib_luc(-n)` are multiplied by `(-1)^(-n)`; it terminates for every `n` |
| `Fibonacci.Fib` | src/math/fib.rs:3-5 | `fib(n) == F(n)` for `n >= 0` |
| `Fibonacci.NegaRecurrence` | src/math/fib.rs:12-17 | the standard extension to negative indices satisfies `X(n) == X(n-1) + X(n-2)` everywhere |
| `Fibonacci.FibMinusOne` | src/math/fib.rs:12-17 | as written, `fib(-1) == -1` where the standard value is 1, and `fib(1) != fib(0) + fib(-1)` |
| `Fibonacci.FibLucSigned` | src/math/fib.rs:12-17 | corrected: the standard `(F(n), L(n))` at every integer index |
| `Fibonacci.FibSignedRecurrence` | src/math/fib.rs:12-17 | the corrected `fib` satisfies the recurrence at every integer |
| `Fibonacci.FibTestValues` | src/math/fib.rs:35-54 | `fib` at 0,1,2,3,4,5,10,15,20 is 0,1,1,2,3,5,55,610,6765 |
| `Stack.ReverseAt` | src/lfs/stack.rs:21-65 | the `k`-th value popped after pushing `s` is the `k`-th value of `s` counted from its end |
| `Stack.LockFreeStack.constructor` | src/lfs/stack.rs:14-18 | `new()` has a null top and no values |
| `Stack.LockFreeStack.Push` | src/lfs/stack.rs:21-41 | a fresh node whose next is the old top becomes the top and heads the node list, so the value is prepended; the null-terminated, acyclic chain is kept; nothing is dropped or freed |
| `Stack.LockFreeStack.Pop` | src/lfs/stack.rs:43-65 | as written: None and no change on an empty stack; otherwise the top value is returned, the top becomes its next, the old top leaves the node list and is freed, and the returned value has also been dropped with it |
| `Stack.LockFreeStack.PopTake` | src/lfs/stack.rs:43-65 | corrected pop: the same, except that the value is moved out before the node is freed, so it is returned and not dropped |
| `Stack.LockFreeStack.PopAndDrop` | src/lfs/stack.rs:70 | one round of `while self.pop().is_some() {}`: false iff the stack was empty; otherwise the top node is freed and its value dropped twice, once by `pop` and once as the discarded result |
| `Stack.LockFreeStack.Drain` | src/lfs/stack.rs:68-72 | as written, `Drop` pops until None, terminates by the stack length, frees every node once, top first, and drops every value twice, top first |
| `Stack.LockFreeStack.DrainTake` | src/lfs/stack.rs:68-72 | `Drop` over the corrected pop: every node freed once and every value dropped exactly once, top first |
| `Stack.LockFreeStack.PushAll` | src/lfs/stack.rs:21-41 | pushing `v1..vn` in turn puts `vn..v1` in front of the old values |
| `Stack.LockFreeStack.PopMany` | src/lfs/stack.rs:43-65 | `n` pops as written return the first `n` values in order, leave the rest, and drop each returned value |
| `Stack.LockFreeStack.PushAllPopAll` | src/lfs/stack.rs:21-65 | LIFO law: pushing `v1..vn` then popping n times returns `vn..v1` and restores the stack; as written, the popped values are also dropped |
| `Stack.PopDropsReturnedValue` | src/lfs/stack.rs:58-60 | as written, push 7 then pop returns `Some(7)` and 7 has already been dropped |
| `Queue.LockFreeQueue.constructor` | src/lfs/queue.rs:18-29 | `head == tail` is one sentinel holding None with a null next; no values |
| `Queue.LockFreeQueue.IsEmpty` | src/lfs/queue.rs:116-121 | true iff the queue holds no value, read off `head.next` alone |
| `Queue.LockFreeQueue.Enqueue` | src/lfs/queue.rs:31-73 | a lagging tail is first helped forward; the node is linked after the last node, so the value is appended; the tail then points at the new node or lags one behind it; the invariant is kept |
| `Queue.LockFreeQueue.CatchUpTail` | src/lfs/queue.rs:62-69 | the helping swing repeated while the tail has a successor ends with the tail on the last node, the chain untouched |
| `Queue.LockFreeQueue.Link` | src/lfs/queue.rs:43-53 | the successful CAS on a null `next` appends the fresh node and its value to the chain, the tail now lagging one behind |
| `Queue.LockFreeQueue.Dequeue` | src/lfs/queue.rs:75-114 | as written: None and no change when empty; otherwise the front value is returned, its node becomes the sentinel still holding it, the old sentinel is freed (dropping what it held), and the tail stays put unless it was on the old sentinel, when it moves to the new one |
| `Queue.LockFreeQueue.DequeueTake` | src/lfs/queue.rs:75-114 | corrected dequeue: the same moves of head and tail, but the value is moved out of the new sentinel, so freeing a sentinel never drops a value that was handed out |
| `Queue.LockFreeQueue.DequeueAndDrop` | src/lfs/queue.rs:126 | one round of `while self.dequeue().is_some() {}`: false iff empty; otherwise the old sentinel is freed and dropped, and the returned value is dropped, while the new sentinel still holds it |
| `Queue.LockFreeQueue.DropAll` | src/lfs/queue.rs:126 | the loop of `Drop` as written ends with only the sentinel left; every other node freed front to back; the drop log plus the sentinel's value is the old sentinel's value followed by every value twice |
| `Queue.LockFreeQueue.Drain` | src/lfs/queue.rs:124-131 | as written, `Drop` frees every node exactly once, front to back, drops the first sentinel's value once and every queued value twice |
| `Queue.LockFreeQueue.DrainTake` | src/lfs/queue.rs:124-131 | `Drop` over the corrected dequeue: every node freed once, every value dropped exactly once |
| `Queue.LockFreeQueue.EnqueueAll` | src/lfs/queue.rs:31-73 | enqueueing `v1..vn` appends them in order, whichever tail swings fail, and leaves the sentinel alone |
| `Queue.LockFreeQueue.DequeueAll` | src/lfs/queue.rs:75-114 | dequeueing as written until None returns every value in FIFO order, frees the nodes that held them front to back and leaves the last as the sentinel; everything returned except what the sentinel still holds has been dropped |
| `Queue.LockFreeQueue.DequeueAllTake` | src/lfs/queue.rs:75-114 | the same over the corrected dequeue, which drops nothing |
| `Queue.LockFreeQueue.EnqueueAllDequeueAll` | src/lfs/queue.rs:31-114 | FIFO law as written: whichever tail swings fail, dequeueing everything returns the old values then `v1..vn`, and the values handed out are also dropped |
| `Queue.LockFreeQueue.EnqueueAllDequeueAllTake` | src/lfs/queue.rs:31-114 | FIFO law over the corrected dequeue, with nothing dropped |
| `Queue.DequeueDropsReturnedValue` | src/lfs/queue.rs:104-108 | as written, enqueue 1, 2 and dequeue twice: both are returned, and 1 is also dropped when its node is freed |
| `Bits.BitAnd` | src/lfs/queue.rs:182 | `counter & mask` is at most each operand |
| `Bits.MaskIsMod` | src/lfs/queue.rs:182 | for a power-of-two capacity, `counter & (capacity - 1) == counter % capacity` |
| `Bits.NextPowerOfTwo` | src/lfs/queue.rs:144 | the smallest power of two at least `c`; 10 rounds to 16 and 0 to 1 |
| `Queue.DistinctSlots` | src/lfs/queue.rs:182-185 | counters less than `capacity` apart use different slots |
| `Queue.EmptyRingAllNone` | src/lfs/queue.rs:257-264 | once no counter in a lap addresses a value, every slot holds None |
| `Queue.BoundedLockFreeQueue.constructor` | src/lfs/queue.rs:143-163 | capacity is `c.next_power_of_two()`, `head == tail == 0`, every slot None |
| `Queue.BoundedLockFreeQueue.Capacity` | src/lfs/queue.rs:248-251 | a power of two, the slot count, and at least the number of values held |
| `Queue.BoundedLockFreeQueue.Len` | src/lfs/queue.rs:241-246 | the number of values held, `tail - head` |
| `Queue.BoundedLockFreeQueue.IsEmpty` | src/lfs/queue.rs:229-232 | true iff no value is held (`head >= tail`) |
| `Queue.BoundedLockFreeQueue.IsFull` | src/lfs/queue.rs:234-239 | true iff the queue holds `capacity` values |
| `Queue.BoundedLockFreeQueue.Enqueue` | src/lfs/queue.rs:165-195 | when full, `Err(value)` with the value unchanged and nothing changed; otherwise slot `tail & mask` gets the value, `tail` goes up by 1, the value is appended, and the slot invariant is kept |
| `Queue.BoundedLockFreeQueue.Dequeue` | src/lfs/queue.rs:197-227 | None when `head >= tail`; otherwise the oldest value is taken out of slot `head & mask`, leaving None, and `head` goes up by 1 |
| `Queue.BoundedLockFreeQueue.Drain` | src/lfs/queue.rs:257-265 | `Drop` drops every value exactly once, oldest first, and leaves every slot None |
| `Queue.BoundedLockFreeQueue.EnqueueAllDequeueAll` | src/lfs/queue.rs:165-227 | FIFO law for values that fit |
| `Queue.BoundedCapacityScenario` | src/lfs/queue.rs:143-195 | `new(10)` has capacity 16; 16 enqueues succeed and the 17th hands back its value |
| `Memory.Filled` | src/unsafe/mem.rs:90-109 | the first `n` bytes are `value`, the others are unchanged |
| `Memory.Copied` | src/unsafe/mem.rs:56-77 | the first `n` bytes come from the source, the others are unchanged |
| `Memory.FilledGrows` | src/unsafe/mem.rs:100-104 | filling a shorter prefix after or before a longer one changes nothing |
| `Memory.CopyOfFilled` | src/unsafe/mem.rs:102 | copying a filled prefix fills the destination, so each doubling copy extends the fill |
| `Memory.CopyNonoverlapping` | src/unsafe/mem.rs:102-107 | `copy_nonoverlapping` needs disjoint ranges; it copies `len` bytes and writes nothing else |
| `Memory.FastMemset` | src/unsafe/mem.rs:90-109 | bytes `[0, count)` become `value`, the rest are unchanged; the doubling loop keeps a power-of-two filled prefix `i <= count`, and both copies have disjoint ranges |
| `Memory.FastMemcpy` | src/unsafe/mem.rs:56-77 | `dst[0, count)` equals `src[0, count)` and nothing else is written; the words and the tail shorter than a word cover exactly `count` bytes |
| `Memory.SecureZeroMemory` | src/unsafe/mem.rs:122-127 | bytes `[0, count)` become 0, the rest are unchanged |
| `Memory.WrappingFitsAcceptsOutOfBounds` | src/unsafe/mem.rs:246-249 | as written with wrapping `usize` addition, `offset = usize::MAX, len = 1` passes the check on an empty view |
| `Memory.WrappingFits` | src/unsafe/mem.rs:246-249 | the check as written: without overflow it is `offset + len <= size`; with overflow it compares `offset + len - 2^64` |
| `Memory.Fits` | src/unsafe/mem.rs:246-282 | corrected, overflow-free bounds check: true iff `offset + len <= size` |
| `Memory.FitsAgreesWithoutOverflow` | src/unsafe/mem.rs:246-282 | when the addition does not overflow, the written check and the corrected one agree |
| `Memory.ToLittleEndian` | src/unsafe/mem.rs:257-263 | the `width` bytes `write_unaligned` stores: the least significant byte first, and 0 in every byte of weight above the value |
| `Memory.FromLittleEndian` | src/unsafe/mem.rs:250 | decoding `w` bytes gives a value below `256^w` |
| `Memory.FromToLittleEndian` | src/unsafe/mem.rs:250-263 | decoding the bytes of a value gives the value back |
| `Memory.ToFromLittleEndian` | src/unsafe/mem.rs:250-263 | encoding a decoded value gives the bytes back |
| `Memory.MemoryAccess.constructor` | src/unsafe/mem.rs:233-239 | the view covers `size` bytes that the caller vouches for |
| `Memory.MemoryAccess.Read` | src/unsafe/mem.rs:245-251 | panics with "Read out of bounds" iff `offset + size_of::<T>() > size`; otherwise the value whose bytes are at `offset` |
| `Memory.MemoryAccess.Write` | src/unsafe/mem.rs:257-265 | panics iff out of bounds, changing nothing; otherwise only `[offset, offset + width)` changes, to the bytes of the value |
| `Memory.MemoryAccess.Slice` | src/unsafe/mem.rs:271-274 | panics iff out of bounds; otherwise the `len` bytes at `offset` |
| `Memory.MemoryAccess.SliceMut` | src/unsafe/mem.rs:280-283 | panics iff out of bounds; otherwise the range `[offset, offset + len)`, inside the memory |
| `Memory.MemoryAccess.WriteThenRead` | src/unsafe/mem.rs:245-265 | a successful write is read back as the value written |
| `Memory.NewBlock` | src/unsafe/mem.rs:168-177 | None iff the size is 0 or the allocator fails; otherwise a live block of `size` bytes |
| `Memory.MemoryBlock.constructor` | src/unsafe/mem.rs:174 | a fresh live block of `size` bytes |
| `Memory.MemoryBlock.Size` | src/unsafe/mem.rs:183-185 | the length of the live block |
| `Memory.MemoryBlock.Fill` | src/unsafe/mem.rs:187-191 | every byte of the block becomes `value` |
| `Memory.MemoryBlock.SecureZero` | src/unsafe/mem.rs:205-209 | every byte of the block becomes 0 |
| `Memory.MemoryBlock.Reallocate` | src/unsafe/mem.rs:145-159 | realloc to a positive size: on success a fresh block of `new_size` keeping the common prefix, the old one released; on failure nothing changes |
| `Memory.MemoryBlock.Resize` | src/unsafe/mem.rs:193-203 | as written: false with `ptr`, `size` unchanged on failure, true with `size == new_size` on success; for `new_size == 0` it answers false although the block was already released |
| `Memory.MemoryBlock.ResizeChecked` | src/unsafe/mem.rs:193-203 | corrected: false iff nothing changed, and the block stays live |
| `Memory.MemoryBlock.Drop` | src/unsafe/mem.rs:212-218 | `deallocate` releases the block when its size is positive |
| `Memory.ResizeToZeroThenDrop` | src/unsafe/mem.rs:193-218 | as written, `resize(0)` then drop releases the same block twice |
| `Memory.ResizeCheckedThenDrop` | src/unsafe/mem.rs:193-218 | with the corrected resize, any resizes followed by drop release exactly the blocks allocated, each once, in order, the last being the final live block |

## Findings

| source | as written | input that shows it | evidently intended | confidence | as-written member | corrected member |
|---|---|---|---|---|---|---|
| src/math/general.rs:35-42 | tests `gcd != 1`, but `extended_gcd` with truncating `%` can return `-1` for a negative `a` | `mod_inverse(-1, 3)` is None, yet `-1 * 2 ≡ 1 (mod 3)` | a gcd of `±1` admits an inverse | high, not executed | `NumberTheory.ModInverseMissesNegative` | `NumberTheory.ModInverseSigned` |
| src/math/fib.rs:12-17 | multiplies the F component by `(-1)^(-n)` | `fib(-1) == -1`, so `fib(1) != fib(0) + fib(-1)` | negafibonacci `F(-m) == (-1)^(m+1) F(m)` | high, not executed | `Fibonacci.FibMinusOne` | `Fibonacci.FibLucSigned` |
| src/lfs/stack.rs:58-60 | `ptr::read`s the value, then drops the boxed node, which drops the value again | push 7, pop: 7 is returned and dropped | move the value out before freeing the node | high, not executed | `Stack.PopDropsReturnedValue` | `Stack.LockFreeStack.PopTake` |
| src/lfs/queue.rs:104-108 | `ptr::read`s the value out of the new sentinel and leaves `Some(v)` there; freeing that node later drops `v` again | enqueue 1, 2; dequeue twice: 1 is returned and dropped | `take()` the value, leaving None in the sentinel | high, not executed | `Queue.DequeueDropsReturnedValue` | `Queue.LockFreeQueue.DequeueTake` |
| src/unsafe/mem.rs:193-203 | `resize(0)` frees the block, answers false and keeps the dangling `ptr`; `Drop` frees it again | `MemoryBlock::new(16, 8)`, `resize(0)`, drop | a false answer leaves the block untouched and live | high, not executed | `Memory.ResizeToZeroThenDrop` | `Memory.MemoryBlock.ResizeChecked` |
| src/unsafe/mem.rs:246-249 | `offset + size_of::<T>() <= size` wraps in builds without overflow checks | `offset == usize::MAX`, a 1-byte `T`, `size == 0` passes | reject any range past `size` | medium (release builds only), not executed | `Memory.WrappingFitsAcceptsOutOfBounds` | `Memory.Fits` |

The linked stack and queue copy a popped or dequeued value out with `ptr::read` and leave it
in the node (rows 3 and 4 above), whereas the bounded queue `take()`s it out of its slot. The
members named `...Take` are the corrected halves: they move the value out, and the drop logs
then show every value dropped once. The members without the suffix model the code as written:
`Stack.LockFreeStack.Drain` and `Queue.LockFreeQueue.Drain` show `Drop` dropping every value
twice, and the FIFO and LIFO laws show each handed-out value also dropped.

## Left out

- Concurrency is not modelled: atomics and their memory orderings, fences, `spin_loop`,
  `Send`/`Sync`, cache-line padding, and the progress guarantee. The model runs one thread,
  so every compare-and-swap succeeds except the final tail swing in `enqueue`.
- `Queue.LockFreeQueue.Enqueue`: the swing inside the retry loop that helps a lagging tail
  forward always succeeds in the model. So does the tail swing in `dequeue`. The source only
  retries them, so one thread reaches the same state.
- The use-after-free/ABA hazard of freeing a node right after a winning CAS needs a second
  thread and is not modelled.
- The bounded queue's window between reserving a slot and writing into it needs a second
  thread and is not modelled.
- `src/unsafe/io.rs` is not part of this model. Its methods are thin wrappers over system
  calls.
- `src/math/matrix/*` is not part of this model. It is floating-point numerics, and some of
  it is stubs.
- `allocate`, `deallocate` and `alloc::realloc` call the global allocator, which is outside
  the model. Their outcome is a parameter, and a released block is recorded in the
  `Released` log.
- Alignment is not modelled. `MemoryBlock` keeps `align` unused, and `as_ptr` is a plain
  accessor.
- The unaligned `usize` casts have no Dafny meaning. A word store in `fast_memcpy` is
  modelled as a store of `WordSize` (8) bytes.
- `write_volatile` and the `SeqCst` fence in `secure_zero_memory` have no Dafny meaning.
  Zeroing is modelled as plain writes.
- `Memory.MemoryAccess.Read`: `T` is modelled as an unsigned integer of `size_of::<T>()`
  bytes stored little-endian, not as an arbitrary `Copy` type.
- `Memory.MemoryAccess.Write`: `T` is modelled the same way as in `Read`.
- `Memory.FastMemcpy`: `src` and `dst` are distinct arrays. Overlap inside one buffer, which
  the source forbids, is not represented.
- `NumberTheory.ModPow`: values are unbounded. The `u64` products overflow once `modulus >= 2^32`.
- `NumberTheory.ModPow`: `modulus == 0` makes the source panic on `%`, so `modulus > 0` is
  required.
- `NumberTheory.IsPrime`: stated against the Miller–Rabin acceptance condition, not against
  primality itself. The test is deterministic with these witnesses, but proving that is
  beyond the model.
- `NumberTheory.IsPrime`: it inherits the `mod_pow` overflow.
- `NumberTheory.PrimeFactors`: `i * i` overflow is not modelled. `n == 0` loops forever in
  the source, so `n >= 1` is required.
- `NumberTheory.FactorPowerOfTwo`: `n == 0` loops forever in the source, so `n > 0` is
  required.
- `NumberTheory.Isqrt`: the `x + 1` overflow at `u64::MAX` is not modelled.
- `NumberTheory.ExtendedGcd`: `i64` overflow is not modelled.
- `NumberTheory.ModInverse`: `m == 0` with `a == 1` divides by zero in the source and is
  excluded.
- `Fibonacci.FibLuc`: negating `isize::MIN` is not modelled, because indices are unbounded.
- `build.rs`, `benches/*.rs` and `src/main.rs` are not part of this model. They are build,
  benchmark and demo code.
