/** The Limine kernel's bump allocator (kernel/src/memory/mem.cpp): a 16 MiB
    static buffer, a pointer that only moves up, `malloc` rounding both the
    request and the pointer up to 8 bytes and panicking when the block would
    pass the end of the buffer, and `free`/`realloc` that do nothing.
    Addresses are integers; the buffer's address and `hhdm_offset` are
    parameters. */
module KernelHeap {
  import opened CInt

  /** `heap_max`: 16 MiB. */
  const HEAP_MAX: nat := 1024 * 1024 * 16
  /** The alignment `malloc` asks of sizes and addresses. */
  const ALIGN: nat := 8

  /** `align` is a power of two no larger than 2^64, so that it divides
      2^64: exactly the values for which clearing the low bits of a
      `size_t` rounds it down to a multiple of `align`. */
  predicate PowerOfTwoAlign(a: int)
  {
    0 < a && TWO64 % a == 0
  }

  /** `align_up(v, align)`: `(v + (align - 1)) & ~(align - 1)` on `size_t`.
      The sum wraps at 2^64; the mask, for a power-of-two `align`, rounds
      the sum down to a multiple of `align` (MaskRoundsDown shows this for
      the 8 that `malloc` passes; the arithmetic lemmas below hold for
      every power of two). */
  function AlignUp(v: int, a: int): int
    requires PowerOfTwoAlign(a)
  {
    var x := U64(v + (a - 1));
    x - x % a
  }

  /** Clearing the low three bits of a 64-bit value is subtracting its
      remainder modulo 8. */
  lemma MaskRoundsDown(x: bv64)
    ensures x & !7 == x - x % 8
  {
  }

  /** Without wrap-around, `align_up(v, align)` gives the least multiple
      of `align` that is at least `v`. */
  lemma AlignUpSpec(v: int, a: int)
    requires PowerOfTwoAlign(a) && 0 <= v && v + a - 1 < TWO64
    ensures var r := AlignUp(v, a); r % a == 0 && v <= r < v + a
    ensures forall m :: v <= m < AlignUp(v, a) ==> m % a != 0
  {
    var x := v + (a - 1);
    assert U64(x) == x;
    var q := x / a;
    var r := AlignUp(v, a);
    assert r == a * q by {
      DivMod(x, a);
    }
    MultipleMod(a, q);
    forall m | v <= m < r
      ensures m % a != 0
    {
      DivMod(m, a);
      if m % a == 0 {
        MulBelow(a, m / a, q);
        MulBelow(a, q - 1, m / a);
      }
    }
  }

  /** `x` splits into whole multiples of `a` and a remainder below `a`. */
  lemma DivMod(x: int, a: int)
    requires 0 < a
    ensures x == a * (x / a) + x % a && 0 <= x % a < a
  {
  }

  lemma MultipleMod(a: int, q: int)
    requires 0 < a
    ensures (a * q) % a == 0
  {
    DivMod(a * q, a);
    var k := (a * q) / a;
    assert a * (q - k) == (a * q) % a;
    NoSmallMultiple(a, q - k);
  }

  /** The only multiple of `a` in `0 .. a - 1` is 0. */
  lemma NoSmallMultiple(a: int, j: int)
    requires 0 < a && 0 <= a * j < a
    ensures j == 0
  {
    if j > 0 {
      MulMono(a, 1, j);
    } else if j < 0 {
      MulMono(a, j, -1);
    }
  }

  /** Multiplying by a positive `a` keeps order. */
  lemma MulMono(a: int, b: int, c: int)
    requires 0 < a && b <= c
    ensures a * b <= a * c
  {
    assert a * c - a * b == a * (c - b);
  }

  /** A multiple of `a` strictly below another one has a smaller factor. */
  lemma MulBelow(a: int, b: int, c: int)
    requires 0 < a && a * b < a * c
    ensures b < c
  {
    if c <= b {
      MulMono(a, c, b);
    }
  }

  /** Near the top of the address space the sum wraps and `align_up(v, align)`
      returns 0. */
  lemma AlignUpWraps(v: int, a: int)
    requires PowerOfTwoAlign(a) && v < TWO64 && TWO64 <= v + a - 1
    ensures AlignUp(v, a) == 0
  {
    assert a <= TWO64;
    assert U64(v + (a - 1)) == v + (a - 1) - TWO64;
  }

  /** What `malloc` returns: a null pointer for a zero-byte request, the
      address of a block, or nothing because the kernel panicked with
      "Out of memory!". */
  datatype Alloc = Null | Block(addr: int) | OutOfMemory

  /** One call of `malloc(size)` with the heap pointer at `ptr`: the result
      and the heap pointer afterwards. A panic never returns, so the pointer
      is left as it was. */
  function Malloc(ptr: int, heapEnd: int, hhdm: int, size: int): (Alloc, int)
  {
    if size == 0 then (Null, ptr)
    else
      var asize := AlignUp(size, ALIGN);
      var p := AlignUp(ptr, ALIGN);
      if p + asize > heapEnd then (OutOfMemory, ptr)
      else (Block(p), hhdm + p + asize)
  }

  /** `malloc(0)` returns null, and a request the buffer cannot hold
      panics, in both cases leaving the heap pointer where it was. A block
      is 8-aligned, starts at or after the heap pointer, holds the request,
      ends within the buffer, and moves the heap pointer to its end plus
      `hhdm_offset`. */
  lemma MallocSpec(ptr: int, heapEnd: int, hhdm: int, size: int)
    requires InU64(ptr) && InU64(size) && ptr + ALIGN - 1 < TWO64 && size + ALIGN - 1 < TWO64
    ensures var (r, next) := Malloc(ptr, heapEnd, hhdm, size);
      && (size == 0 <==> r == Null)
      && (r.Null? || r.OutOfMemory? ==> next == ptr)
      && (size != 0 ==> (r.OutOfMemory? <==> AlignUp(ptr, ALIGN) + AlignUp(size, ALIGN) > heapEnd))
      && (r.Block? ==>
            && r.addr % ALIGN == 0 && ptr <= r.addr < ptr + ALIGN
            && r.addr + size <= r.addr + AlignUp(size, ALIGN) <= heapEnd
            && next == hhdm + r.addr + AlignUp(size, ALIGN))
  {
    AlignUpSpec(ptr, ALIGN);
    AlignUpSpec(size, ALIGN);
  }

  /** Two successive blocks do not overlap: the second starts at or after
      the end of the first, `hhdm_offset` bytes later when the offset is not
      zero. */
  lemma MallocDisjoint(ptr: int, heapEnd: int, hhdm: int, size1: int, size2: int)
    requires InU64(ptr) && InU64(size1) && InU64(size2) && 0 <= hhdm
    requires ptr + ALIGN - 1 < TWO64 && size1 + ALIGN - 1 < TWO64 && size2 + ALIGN - 1 < TWO64
    requires heapEnd + hhdm + ALIGN - 1 < TWO64
    ensures var (r1, next) := Malloc(ptr, heapEnd, hhdm, size1);
      var (r2, _) := Malloc(next, heapEnd, hhdm, size2);
      r1.Block? && r2.Block? ==> r1.addr + size1 + hhdm <= r2.addr
  {
    var (r1, next) := Malloc(ptr, heapEnd, hhdm, size1);
    MallocSpec(ptr, heapEnd, hhdm, size1);
    if r1.Block? {
      assert InU64(next);
      MallocSpec(next, heapEnd, hhdm, size2);
    }
  }

  /** With `hhdm_offset` zero the heap pointer never leaves the buffer: a
      pointer between its start and its end stays there after any call. */
  lemma MallocKeepsPointerInBuffer(start: int, ptr: int, size: int)
    requires 0 <= start && start % ALIGN == 0 && start <= ptr <= start + HEAP_MAX
    requires start + HEAP_MAX + ALIGN - 1 < TWO64 && InU64(size) && size + ALIGN - 1 < TWO64
    ensures var (_, next) := Malloc(ptr, start + HEAP_MAX, 0, size); start <= next <= start + HEAP_MAX
  {
    MallocSpec(ptr, start + HEAP_MAX, 0, size);
  }

  /** A request whose rounding wraps (within 7 of 2^64 bytes) is rounded
      to 0 bytes, and `malloc` hands out the aligned heap pointer without
      panicking whenever that pointer is within the buffer. */
  lemma MallocHugeRequest(ptr: int, heapEnd: int, hhdm: int, size: int)
    requires InU64(ptr) && ptr + ALIGN - 1 < TWO64 && AlignUp(ptr, ALIGN) <= heapEnd
    requires size < TWO64 && TWO64 <= size + ALIGN - 1
    ensures Malloc(ptr, heapEnd, hhdm, size) == (Block(AlignUp(ptr, ALIGN)), hhdm + AlignUp(ptr, ALIGN))
  {
    AlignUpWraps(size, ALIGN);
  }

  /** The statics `heap_ptr` and `heap_end` over `heap_buf`. */
  class Heap {
    var ptr: int
    const heapEnd: int
    const hhdm: int

    /** The buffer at `start` (16-aligned), the pointer at its start. */
    constructor (start: int, hhdm: int)
      requires start % 16 == 0 && 0 <= start && InU64(start + HEAP_MAX) && 0 <= hhdm
      ensures ptr == start && heapEnd == start + HEAP_MAX && this.hhdm == hhdm
    {
      ptr := start;
      heapEnd := start + HEAP_MAX;
      this.hhdm := hhdm;
    }

    /** `malloc(size)`. */
    method Allocate(size: int) returns (r: Alloc)
      requires InU64(size)
      modifies this
      ensures (r, ptr) == Malloc(old(ptr), heapEnd, hhdm, size)
    {
      if size == 0 {
        return Null;
      }
      var asize := AlignUp(size, ALIGN);
      var p := AlignUp(ptr, ALIGN);
      if p + asize > heapEnd {
        return OutOfMemory;
      }
      ptr := hhdm + p + asize;
      r := Block(p);
    }

    /** `free(block)`: nothing happens, null or not. */
    method Free(block: int)
    {
    }

    /** `realloc(ptr, size)`: always null. */
    method Reallocate(p: int, size: int) returns (r: Alloc)
      ensures r == Null
    {
      r := Null;
    }
  }
}
