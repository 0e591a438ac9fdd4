/** The multiboot kernel's memory library (src/lib/mem.cpp): the byte loops
    `memcpy`, `memset` and `memmove` on plain addresses, the `align`
    helper, and an allocator whose `malloc`, `free` and `realloc` are
    placeholders. */
module SrcMem {
  import opened CInt
  import opened ByteCopy
  import KernelHeap

  /** `align(n)`: `(n + sizeof(intptr_t) - 1) & ~(sizeof(intptr_t) - 1)`,
      with an 8-byte `intptr_t`. */
  function Align(n: int): int
  {
    var x := U64(n + 7);
    x - x % 8
  }

  /** `align` is the kernel allocator's `align_up(n, 8)`: the least multiple
      of 8 that is at least `n`, unless the sum wraps. */
  lemma AlignRoundsUp(n: int)
    requires 0 <= n && n + 7 < TWO64
    ensures Align(n) == KernelHeap.AlignUp(n, 8)
    ensures Align(n) % 8 == 0 && n <= Align(n) < n + 8
  {
    KernelHeap.AlignUpSpec(n, 8);
  }

  /** `memcpy`: low to high; a true copy unless the destination overlaps
      the source from above. */
  method Memcpy(mem: array<bv8>, dst: nat, src: nat, size: nat) returns (r: nat)
    requires dst + size <= mem.Length && src + size <= mem.Length
    modifies mem
    ensures r == dst
    ensures mem[..] == Smeared(old(mem[..]), dst, src, size)
    ensures ForwardSafe(dst, src, size) ==> mem[..] == Copied(old(mem[..]), dst, src, size)
  {
    CopyForward(mem, dst, src, size);
    if ForwardSafe(dst, src, size) {
      SmearedSafe(old(mem[..]), dst, src, size);
    }
    r := dst;
  }

  /** `memset`. */
  method Memset(mem: array<bv8>, dest: nat, val: bv8, count: nat) returns (r: nat)
    requires dest + count <= mem.Length
    modifies mem
    ensures r == dest
    ensures mem[..] == Filled(old(mem[..]), dest, count, val)
  {
    Fill(mem, dest, count, val);
    r := dest;
  }

  /** `memmove`: low to high when the destination is below the source,
      high to low otherwise, so any overlap is handled. */
  method Memmove(mem: array<bv8>, dst: nat, src: nat, size: nat) returns (r: nat)
    requires dst + size <= mem.Length && src + size <= mem.Length
    modifies mem
    ensures r == dst
    ensures mem[..] == Copied(old(mem[..]), dst, src, size)
  {
    if dst < src {
      CopyForward(mem, dst, src, size);
      SmearedSafe(old(mem[..]), dst, src, size);
    } else {
      CopyBackward(mem, dst, src, size);
    }
    r := dst;
  }

  /** `malloc(size)`: null whatever the size. */
  method Malloc(size: int) returns (r: KernelHeap.Alloc)
    ensures r == KernelHeap.Null
  {
    if size == 0 {
      return KernelHeap.Null;
    }
    r := KernelHeap.Null;
  }

  /** `free(block)`: nothing happens. */
  method Free(block: int)
  {
  }

  /** `realloc(ptr, size)`: always null. */
  method Realloc(p: int, size: int) returns (r: KernelHeap.Alloc)
    ensures r == KernelHeap.Null
  {
    r := KernelHeap.Null;
  }
}
