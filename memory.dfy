/** The byte-buffer routines of src/unsafe/mem.rs. A raw pointer to `n` valid bytes is an
    `array<Byte>` of at least `n` elements; `ptr::copy_nonoverlapping` inside one buffer is
    `CopyNonoverlapping`, whose precondition is the disjointness Rust demands of it. The global
    allocator is not modelled: whether an allocation succeeds is a parameter. */
module Memory {
  import opened Wrappers
  import opened Bits

  newtype Byte = x: int | 0 <= x < 256

  /** `mem::size_of::<usize>()` on a 64-bit target. */
  const WordSize: nat := 8

  /** One more than the largest `usize`. */
  const UsizeLimit: nat := 0x1_0000_0000_0000_0000

  // ------------------------------------------------------ specifications

  /** `s` with its first `n` bytes set to `value`. */
  function Filled(s: seq<Byte>, value: Byte, n: nat): (r: seq<Byte>)
    requires n <= |s|
    ensures |r| == |s|
    ensures forall k :: 0 <= k < n ==> r[k] == value
    ensures forall k :: n <= k < |s| ==> r[k] == s[k]
  {
    seq(n, _ => value) + s[n..]
  }

  /** `d` with its first `n` bytes taken from `s`. */
  function Copied(d: seq<Byte>, s: seq<Byte>, n: nat): (r: seq<Byte>)
    requires n <= |d| && n <= |s|
    ensures |r| == |d|
    ensures r[..n] == s[..n]
    ensures forall k :: n <= k < |d| ==> r[k] == d[k]
  {
    s[..n] + d[n..]
  }

  /** Filling is idempotent, and a prefix already filled can be extended by copying it. */
  lemma FilledGrows(s: seq<Byte>, value: Byte, i: nat, j: nat)
    requires i <= j <= |s|
    ensures Filled(Filled(s, value, i), value, j) == Filled(s, value, j)
    ensures Filled(Filled(s, value, j), value, i) == Filled(s, value, j)
  {
    assert Filled(Filled(s, value, i), value, j)[..j] == Filled(s, value, j)[..j];
    assert Filled(Filled(s, value, j), value, i)[..j] == Filled(s, value, j)[..j];
  }

  /** Copying the first `n` bytes of a buffer filled with `value` fills the destination. */
  lemma CopyOfFilled(d: seq<Byte>, s: seq<Byte>, value: Byte, n: nat)
    requires n <= |d| && n <= |s|
    ensures Copied(d, Filled(s, value, n), n) == Filled(d, value, n)
  {
    var lhs, rhs := Copied(d, Filled(s, value, n), n), Filled(d, value, n);
    forall k | 0 <= k < |d|
      ensures lhs[k] == rhs[k]
    {
      if k < n {
        assert lhs[k] == lhs[..n][k];
      }
    }
  }

  // ------------------------------------------------------------ copying

  /** `ptr::copy_nonoverlapping(buf + from, buf + to, len)`: Rust requires the two ranges to
      be disjoint, so every call site must prove it. */
  method CopyNonoverlapping(buf: array<Byte>, from: nat, to: nat, len: nat)
    requires from + len <= to || to + len <= from
    requires from + len <= buf.Length && to + len <= buf.Length
    modifies buf
    ensures forall k :: to <= k < to + len ==> buf[k] == old(buf[from + k - to])
    ensures forall k :: 0 <= k < buf.Length && !(to <= k < to + len) ==> buf[k] == old(buf[k])
  {
    forall k | to <= k < to + len {
      buf[k] := buf[from + k - to];
    }
  }

  /** `fast_memset(dst, value, count)`: below 32 bytes a byte loop; otherwise one byte is set
      and the filled prefix is doubled by copying it onto the bytes after it while it fits in
      `count`, then one last copy fills what is left. */
  method FastMemset(dst: array<Byte>, value: Byte, count: nat)
    requires count <= dst.Length
    modifies dst
    ensures dst[..] == Filled(old(dst[..]), value, count)
  {
    if count < 32 {
      for i := 0 to count
        invariant forall k :: 0 <= k < i ==> dst[k] == value
        invariant forall k :: i <= k < dst.Length ==> dst[k] == old(dst[k])
      {
        dst[i] := value;
      }
      return;
    }
    dst[0] := value;
    var i := 1;
    while i <= count / 2
      invariant 1 <= i <= count && IsPowerOfTwo(i)
      invariant forall k :: 0 <= k < i ==> dst[k] == value
      invariant forall k :: i <= k < dst.Length ==> dst[k] == old(dst[k])
      decreases count - i
    {
      CopyNonoverlapping(dst, 0, i, i);
      i := i * 2;
    }
    // The loop stopped with `i > count / 2`, so the rest is shorter than the filled prefix.
    assert count - i < i;
    if i < count {
      CopyNonoverlapping(dst, 0, i, count - i);
    }
  }

  /** `fast_memcpy(dst, src, count)` for non-overlapping buffers: below 32 bytes a byte loop;
      otherwise `count / WordSize` whole words, then the remaining bytes one by one. */
  method FastMemcpy(dst: array<Byte>, src: array<Byte>, count: nat)
    requires dst != src
    requires count <= dst.Length && count <= src.Length
    modifies dst
    ensures dst[..] == Copied(old(dst[..]), src[..], count)
  {
    if count < 32 {
      for i := 0 to count
        invariant forall k :: 0 <= k < i ==> dst[k] == src[k]
        invariant forall k :: i <= k < dst.Length ==> dst[k] == old(dst[k])
      {
        dst[i] := src[i];
      }
      assert dst[..count] == src[..count];
      return;
    }
    var wordCount := count / WordSize;
    for i := 0 to wordCount
      invariant forall k :: 0 <= k < i * WordSize ==> dst[k] == src[k]
      invariant forall k :: i * WordSize <= k < dst.Length ==> dst[k] == old(dst[k])
    {
      // one `usize` store: the word at byte offset `i * WordSize`
      forall k | i * WordSize <= k < i * WordSize + WordSize {
        dst[k] := src[k];
      }
    }
    var remainingOffset := wordCount * WordSize;
    // The words and the tail cover exactly `count` bytes, and the tail is shorter than a word.
    assert remainingOffset + (count - remainingOffset) == count;
    assert count - remainingOffset < WordSize;
    for i := 0 to count - remainingOffset
      invariant forall k :: 0 <= k < remainingOffset + i ==> dst[k] == src[k]
      invariant forall k :: remainingOffset + i <= k < dst.Length ==> dst[k] == old(dst[k])
    {
      dst[remainingOffset + i] := src[remainingOffset + i];
    }
    assert dst[..count] == src[..count];
  }

  /** `secure_zero_memory(ptr, count)`: every one of the first `count` bytes is written 0. */
  method SecureZeroMemory(p: array<Byte>, count: nat)
    requires count <= p.Length
    modifies p
    ensures p[..] == Filled(old(p[..]), 0, count)
  {
    for i := 0 to count
      invariant forall k :: 0 <= k < i ==> p[k] == 0
      invariant forall k :: i <= k < p.Length ==> p[k] == old(p[k])
    {
      p[i] := 0;
    }
  }

  // ------------------------------------------------------------ bounds checks

  /** The bounds check of `MemoryAccess` as written, `offset + len <= size` on `usize`, in a
      build where the addition wraps around. */
  function WrappingFits(offset: nat, len: nat, size: nat): (r: bool)
    requires offset < UsizeLimit && len < UsizeLimit
    ensures offset + len < UsizeLimit ==> (r <==> offset + len <= size)
    ensures offset + len >= UsizeLimit ==> (r <==> offset + len - UsizeLimit <= size)
  {
    (offset + len) % UsizeLimit <= size
  }

  /** The wrapping check accepts an offset at the very end of the address space. */
  lemma WrappingFitsAcceptsOutOfBounds()
    ensures WrappingFits(UsizeLimit - 1, 1, 0)
    ensures UsizeLimit - 1 + 1 > 0
  {
  }

  /** The same check with no addition that can overflow: the range `[offset, offset + len)`
      lies within `size` bytes. */
  function Fits(offset: nat, len: nat, size: nat): (r: bool)
    ensures r <==> offset + len <= size
  {
    offset <= size && len <= size - offset
  }

  /** Without overflow the two checks agree. */
  lemma FitsAgreesWithoutOverflow(offset: nat, len: nat, size: nat)
    requires offset + len < UsizeLimit
    ensures WrappingFits(offset, len, size) <==> Fits(offset, len, size)
  {
  }

  // ------------------------------------------------------------ typed values

  /** `256^width`. */
  function Pow256(width: nat): (r: nat)
    ensures r > 0
  {
    if width == 0 then 1 else 256 * Pow256(width - 1)
  }

  /** The bytes of a `width`-byte unsigned value on a little-endian target: the least
      significant byte comes first, and every byte of weight `256^i` above the value is 0. */
  function ToLittleEndian(value: nat, width: nat): (r: seq<Byte>)
    requires value < Pow256(width)
    ensures |r| == width
    ensures width > 0 ==> r[0] as nat == value % 256
    ensures forall i :: 0 <= i < width && value < Pow256(i) ==> r[i] == 0
  {
    if width == 0 then [] else [(value % 256) as Byte] + ToLittleEndian(value / 256, width - 1)
  }

  /** The unsigned value of little-endian bytes. */
  function FromLittleEndian(bytes: seq<Byte>): (r: nat)
    ensures r < Pow256(|bytes|)
  {
    if bytes == [] then 0 else bytes[0] as nat + 256 * FromLittleEndian(bytes[1..])
  }

  lemma {:induction false} FromToLittleEndian(value: nat, width: nat)
    requires value < Pow256(width)
    ensures FromLittleEndian(ToLittleEndian(value, width)) == value
    decreases width
  {
    if width > 0 {
      FromToLittleEndian(value / 256, width - 1);
      assert ToLittleEndian(value, width)[1..] == ToLittleEndian(value / 256, width - 1);
    }
  }

  lemma {:induction false} ToFromLittleEndian(bytes: seq<Byte>)
    ensures ToLittleEndian(FromLittleEndian(bytes), |bytes|) == bytes
    decreases |bytes|
  {
    if bytes != [] {
      ToFromLittleEndian(bytes[1..]);
      var v := FromLittleEndian(bytes);
      assert v % 256 == bytes[0] as nat && v / 256 == FromLittleEndian(bytes[1..]);
    }
  }

  /** Why a bounds check failed: the three panic messages of `MemoryAccess`. */
  datatype Panic = ReadOutOfBounds | WriteOutOfBounds | SliceOutOfBounds

  /** A borrowed mutable byte range `[start, start + len)` of a `MemoryAccess`. */
  datatype Window = Window(start: nat, len: nat)

  /** `MemoryAccess`: a view of `size` bytes at a raw pointer. A value of type `T` is modelled as
      an unsigned integer of `size_of::<T>()` bytes, stored little-endian. The bounds checks are
      the overflow-free `Fits`. */
  class MemoryAccess {
    const mem: array<Byte>
    const size: nat

    ghost predicate Valid()
      reads this
    {
      size <= mem.Length
    }

    /** `MemoryAccess::new(ptr, size)`: the caller vouches for `size` valid bytes. */
    constructor (mem: array<Byte>, size: nat)
      requires size <= mem.Length
      ensures Valid() && this.mem == mem && this.size == size
    {
      this.mem := mem;
      this.size := size;
    }

    /** `read::<T>(offset)` with `width == size_of::<T>()`: panics unless the value lies within
        `size` bytes, and otherwise decodes the bytes there. */
    function Read(offset: nat, width: nat): (r: Result<nat, Panic>)
      reads this, mem
      requires Valid()
      ensures r.Failure? <==> offset + width > size
      ensures r.Failure? ==> r.error == ReadOutOfBounds
      ensures r.Success? ==> r.value < Pow256(width) &&
                             ToLittleEndian(r.value, width) == mem[offset..offset + width]
    {
      if !Fits(offset, width, size) then Failure(ReadOutOfBounds)
      else
        var bytes := mem[offset..offset + width];
        ToFromLittleEndian(bytes);
        Success(FromLittleEndian(bytes))
    }

    /** `write::<T>(offset, value)`: panics unless the value lies within `size` bytes; otherwise
        stores its bytes there and changes nothing else. */
    method Write(offset: nat, value: nat, width: nat) returns (r: Result<(), Panic>)
      requires Valid() && value < Pow256(width)
      modifies mem
      ensures r.Failure? <==> offset + width > size
      ensures r.Failure? ==> r == Failure(WriteOutOfBounds) && mem[..] == old(mem[..])
      ensures r.Success? ==>
        mem[offset..offset + width] == ToLittleEndian(value, width) &&
        mem[..offset] == old(mem[..offset]) && mem[offset + width..] == old(mem[offset + width..])
    {
      if !Fits(offset, width, size) {
        return Failure(WriteOutOfBounds);
      }
      var bytes := ToLittleEndian(value, width);
      forall k | offset <= k < offset + width {
        mem[k] := bytes[k - offset];
      }
      assert mem[offset..offset + width] == bytes;
      r := Success(());
    }

    /** `slice(offset, len)`: the `len` bytes at `offset`, or a panic when they do not fit. */
    function Slice(offset: nat, len: nat): (r: Result<seq<Byte>, Panic>)
      reads this, mem
      requires Valid()
      ensures r.Failure? <==> offset + len > size
      ensures r.Failure? ==> r.error == SliceOutOfBounds
      ensures r.Success? ==> |r.value| == len &&
                             forall k :: 0 <= k < len ==> r.value[k] == mem[offset + k]
    {
      if !Fits(offset, len, size) then Failure(SliceOutOfBounds) else Success(mem[offset..offset + len])
    }

    /** `slice_mut(offset, len)`: the mutable range itself, which lies within `size` bytes. */
    function SliceMut(offset: nat, len: nat): (r: Result<Window, Panic>)
      reads this
      requires Valid()
      ensures r.Failure? <==> offset + len > size
      ensures r.Failure? ==> r.error == SliceOutOfBounds
      ensures r.Success? ==> r.value == Window(offset, len) && r.value.start + r.value.len <= mem.Length
    {
      if !Fits(offset, len, size) then Failure(SliceOutOfBounds) else Success(Window(offset, len))
    }

    /** A successful write is read back as the value written. */
    method WriteThenRead(offset: nat, value: nat, width: nat) returns (r: Result<nat, Panic>)
      requires Valid() && value < Pow256(width)
      modifies mem
      ensures offset + width <= size ==> r == Success(value)
      ensures offset + width > size ==> r == Failure(ReadOutOfBounds)
    {
      var w := Write(offset, value, width);
      r := Read(offset, width);
      if w.Success? {
        FromToLittleEndian(value, width);
      }
    }
  }

  // ------------------------------------------------------------ MemoryBlock

  /** `MemoryBlock`: an owned allocation of `size` bytes. `ptr` is the block; the ghost log
      `Released` lists, in order, every block handed back to the allocator. */
  class MemoryBlock {
    var ptr: array<Byte>
    var size: nat
    const align: nat
    ghost var Released: seq<array<Byte>>

    /** The block is live, non-empty and exactly `size` bytes long. */
    ghost predicate Valid()
      reads this
    {
      size > 0 && ptr.Length == size && ptr !in Released
    }

    constructor (size: nat, align: nat)
      requires size > 0
      ensures Valid() && fresh(ptr) && this.size == size && this.align == align && Released == []
    {
      ptr := new Byte[size];
      this.size := size;
      this.align := align;
      Released := [];
    }

    /** `size()`. */
    function Size(): (r: nat)
      reads this
      requires Valid()
      ensures r == ptr.Length && r > 0
    {
      size
    }

    /** `fill(value)`: every byte of the block becomes `value`. */
    method Fill(value: Byte)
      requires Valid()
      modifies ptr
      ensures forall k :: 0 <= k < ptr.Length ==> ptr[k] == value
    {
      FastMemset(ptr, value, size);
    }

    /** `secure_zero()`: every byte of the block becomes 0. */
    method SecureZero()
      requires Valid()
      modifies ptr
      ensures forall k :: 0 <= k < ptr.Length ==> ptr[k] == 0
    {
      SecureZeroMemory(ptr, size);
    }

    /** `resize(new_size)` as written, through `reallocate`; `reallocOk` is whether
        `alloc::realloc` returns a block. A new size of 0 makes `reallocate` free the block and
        return null, so `resize` answers false and keeps `ptr` and `size` describing a block
        that is already released. */
    method Resize(newSize: nat, reallocOk: bool) returns (ok: bool)
      requires Valid()
      modifies this
      ensures newSize == 0 ==>
        !ok && ptr == old(ptr) && size == old(size) && Released == old(Released) + [old(ptr)]
      ensures newSize > 0 && !reallocOk ==>
        !ok && ptr == old(ptr) && size == old(size) && Released == old(Released)
      ensures newSize > 0 && reallocOk ==>
        ok && Valid() && fresh(ptr) && size == newSize && Released == old(Released) + [old(ptr)] &&
        ptr[..Min(old(size), newSize)] == old(ptr[..])[..Min(old(size), newSize)]
    {
      if newSize == 0 {
        Released := Released + [ptr];
        return false;
      }
      ok := Reallocate(newSize, reallocOk);
    }

    /** `resize(new_size)` with a new size of 0 treated like a failed reallocation: the block is
        left as it was, so a false answer always means nothing changed and the block stays live. */
    method ResizeChecked(newSize: nat, reallocOk: bool) returns (ok: bool)
      requires Valid()
      modifies this
      ensures Valid()
      ensures ok <==> newSize > 0 && reallocOk
      ensures !ok ==> ptr == old(ptr) && size == old(size) && Released == old(Released)
      ensures ok ==> (fresh(ptr) && size == newSize && Released == old(Released) + [old(ptr)] &&
        ptr[..Min(old(size), newSize)] == old(ptr[..])[..Min(old(size), newSize)])
    {
      if newSize == 0 {
        return false;
      }
      ok := Reallocate(newSize, reallocOk);
    }

    /** `alloc::realloc` of the live block to a positive size: on success a new block holding
        the common prefix, the old one released; on failure nothing changes. */
    method Reallocate(newSize: nat, reallocOk: bool) returns (ok: bool)
      requires Valid() && newSize > 0
      modifies this
      ensures ok == reallocOk
      ensures !ok ==> ptr == old(ptr) && size == old(size) && Released == old(Released)
      ensures ok ==> (Valid() && fresh(ptr) && size == newSize && Released == old(Released) + [old(ptr)] &&
        ptr[..Min(old(size), newSize)] == old(ptr[..])[..Min(old(size), newSize)])
    {
      if !reallocOk {
        return false;
      }
      var old_ := ptr;
      var kept := Min(size, newSize);
      var block := new Byte[newSize];
      forall k | 0 <= k < kept {
        block[k] := old_[k];
      }
      Released := Released + [ptr];
      ptr := block;
      size := newSize;
      ok := true;
    }

    /** `Drop`: `deallocate` releases the block whenever its size is positive. */
    method Drop()
      modifies this
      ensures ptr == old(ptr) && size == old(size)
      ensures size > 0 ==> Released == old(Released) + [ptr]
      ensures size == 0 ==> Released == old(Released)
    {
      if size > 0 {
        Released := Released + [ptr];
      }
    }
  }

  function Min(a: nat, b: nat): nat
  {
    if a <= b then a else b
  }

  /** `MemoryBlock::new(size, align)`: None when `allocate` returns null, which it does for a
      size of 0 and when the allocator fails (`allocOk` false). */
  method NewBlock(size: nat, align: nat, allocOk: bool) returns (r: Option<MemoryBlock>)
    ensures r.Some? <==> size > 0 && allocOk
    ensures r.Some? ==> fresh(r.value) && fresh(r.value.ptr) && r.value.Valid() &&
                        r.value.size == size && r.value.align == align && r.value.Released == []
  {
    if size == 0 || !allocOk {
      return None;
    }
    var block := new MemoryBlock(size, align);
    return Some(block);
  }

  /** As written, shrinking a block to 0 bytes and then dropping it releases the same block
      twice. */
  method ResizeToZeroThenDrop() returns (b: MemoryBlock, first: array<Byte>)
    ensures b.Released == [first, first]
  {
    b := new MemoryBlock(16, 8);
    first := b.ptr;
    var ok := b.Resize(0, true);
    b.Drop();
  }

  /** With the checked resize, any sequence of resizes followed by a drop releases every block
      exactly once: `blocks` lists the blocks allocated, in order, and the last
      of them is the one the drop releases. */
  method ResizeCheckedThenDrop(sizes: seq<nat>, outcomes: seq<bool>)
    returns (b: MemoryBlock, ghost blocks: seq<array<Byte>>)
    requires |sizes| == |outcomes|
    ensures |blocks| > 0 && blocks[|blocks| - 1] == b.ptr
    ensures b.Released == blocks
    ensures forall i, j :: 0 <= i < j < |blocks| ==> blocks[i] != blocks[j]
  {
    b := new MemoryBlock(16, 8);
    blocks := [b.ptr];
    var i := 0;
    while i < |sizes|
      invariant 0 <= i <= |sizes|
      invariant b.Valid()
      invariant b.Released + [b.ptr] == blocks
      invariant forall x, y :: 0 <= x < y < |blocks| ==> blocks[x] != blocks[y]
      modifies b
    {
      var ok := b.ResizeChecked(sizes[i], outcomes[i]);
      if ok {
        blocks := blocks + [b.ptr];
      }
      i := i + 1;
    }
    b.Drop();
  }
}
