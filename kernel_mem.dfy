/** The Limine kernel's memory library (kernel/src/memory/mem.cpp): the byte
    loops `memcpy`, `memset` and `memmove`, their word-at-a-time `_fast`
    variants, and the bump allocator over a 16 MiB static buffer.

    `memcpy` and `memset` write through the higher-half direct map: they
    add `hhdm_offset` to the destination address and return the address
    they were given. `memmove` and the word loops of the `_fast` variants
    write to the destination address as given; the `_fast` variants hand
    copies and fills under 32 bytes to `memcpy` and `memset`, so those
    land at the HHDM-shifted address. Addresses are indices into one byte
    array and `hhdm_offset` is a parameter. */
module KernelMem {
  import opened CInt
  import opened Wrappers
  import opened ByteCopy

  /** `kWordSize`. */
  const WORD: nat := 8
  /** Below this many bytes the `_fast` variants use the byte loops. */
  const SMALL: nat := 32

  // ------------------------------------------------------- byte loops

  /** `memcpy`: copy `size` bytes from `src` to `hhdm + dst`, low to high;
      a true copy unless the destination overlaps the source from above. */
  method Memcpy(mem: array<bv8>, hhdm: nat, dst: nat, src: nat, size: nat) returns (r: nat)
    requires hhdm + dst + size <= mem.Length && src + size <= mem.Length
    modifies mem
    ensures r == dst
    ensures mem[..] == Smeared(old(mem[..]), hhdm + dst, src, size)
    ensures ForwardSafe(hhdm + dst, src, size) ==> mem[..] == Copied(old(mem[..]), hhdm + dst, src, size)
  {
    CopyForward(mem, hhdm + dst, src, size);
    if ForwardSafe(hhdm + dst, src, size) {
      SmearedSafe(old(mem[..]), hhdm + dst, src, size);
    }
    r := dst;
  }

  /** `memset`: set `count` bytes at `hhdm + dst` to `val`. */
  method Memset(mem: array<bv8>, hhdm: nat, dst: nat, val: bv8, count: nat) returns (r: nat)
    requires hhdm + dst + count <= mem.Length
    modifies mem
    ensures r == dst
    ensures mem[..] == Filled(old(mem[..]), hhdm + dst, count, val)
  {
    Fill(mem, hhdm + dst, count, val);
    r := dst;
  }

  /** `memmove`: low to high when the destination is below the source,
      high to low otherwise, so every byte is read before it is
      overwritten whatever the overlap. */
  method Memmove(mem: array<bv8>, dst: nat, src: nat, size: nat) returns (r: nat)
    requires dst + size <= mem.Length && src + size <= mem.Length
    modifies mem
    ensures r == dst
    ensures mem[..] == Copied(old(mem[..]), dst, src, size)
  {
    if dst < src {
      CopyForward(mem, dst, src, size);
      SmearedSafe(old(mem[..]), dst, src, size);
    } else {
      CopyBackward(mem, dst, src, size);
    }
    r := dst;
  }

  // ----------------------------------------------------- word helpers

  /** One uint64 load and store of a forward copy, the `i`-th byte on:
      all eight bytes are read before any is written. */
  method WordUp(mem: array<bv8>, ghost m: seq<bv8>, dst: nat, src: nat, n: nat, i: nat)
    requires CopyingUp(mem, m, dst, src, n, i) && i + WORD <= n
    modifies mem
    ensures CopyingUp(mem, m, dst, src, n, i + WORD)
  {
    forall p | src + i <= p < src + i + WORD
      ensures mem[p] == m[p]
    {
      assert !(dst <= p < dst + i);
    }
    forall j | 0 <= j < WORD {
      mem[dst + i + j] := mem[src + i + j];
    }
  }

  /** One uint64 load and store of a backward copy, just below the bytes
      from `i` up already copied. */
  method WordDown(mem: array<bv8>, ghost m: seq<bv8>, dst: nat, src: nat, n: nat, i: nat)
    requires CopyingDown(mem, m, dst, src, n, i) && WORD <= i
    modifies mem
    ensures CopyingDown(mem, m, dst, src, n, i - WORD)
  {
    forall p | src + i - WORD <= p < src + i
      ensures mem[p] == m[p]
    {
      assert !(dst + i <= p < dst + n);
    }
    forall j | 0 <= j < WORD {
      mem[dst + i - WORD + j] := mem[src + i - WORD + j];
    }
  }

  /** A uint64 as its eight bytes in memory order (x86 is little-endian):
      byte j holds bits 8j to 8j+7. */
  predicate IsWord(w: seq<bv8>)
  {
    |w| == 8
  }

  /** `(w << 8) | b` for a byte b: every byte moves up one place, the top
      byte is lost, and b fills the cleared bottom byte. */
  function ShiftIn(w: seq<bv8>, b: bv8): (r: seq<bv8>)
    requires IsWord(w)
    ensures IsWord(r) && r[0] == b && forall j :: 1 <= j < 8 ==> r[j] == w[j - 1]
  {
    [b] + w[..7]
  }

  /** The pattern loop of `memset_fast`: eight times
      `pattern = (pattern << 8) | val` from 0. */
  method Pattern(v: bv8) returns (p: seq<bv8>)
    ensures IsWord(p) && forall j :: 0 <= j < 8 ==> p[j] == v
  {
    p := seq(8, _ => 0);
    var i := 0;
    while i < 8
      invariant 0 <= i <= 8 && IsWord(p)
      invariant forall j :: 0 <= j < i ==> p[j] == v
    {
      p := ShiftIn(p, v);
      i := i + 1;
    }
  }

  /** One uint64 store of the pattern, the `i`-th byte on. */
  method WordFill(mem: array<bv8>, ghost m: seq<bv8>, dst: nat, n: nat, v: bv8, pattern: seq<bv8>, i: nat)
    requires Filling(mem, m, dst, n, v, i) && i + WORD <= n
    requires IsWord(pattern) && forall j :: 0 <= j < 8 ==> pattern[j] == v
    modifies mem
    ensures Filling(mem, m, dst, n, v, i + WORD)
  {
    forall j | 0 <= j < WORD {
      mem[dst + i + j] := pattern[j];
    }
  }

  // -------------------------------------------------- the _fast variants

  /** `memcpy_fast`. Nothing happens for zero bytes or a copy onto itself;
      under 32 bytes `memcpy` does the work, at the HHDM-shifted address;
      otherwise the word-at-a-time copy writes at `dst`. */
  method MemcpyFast(mem: array<bv8>, hhdm: nat, dst: nat, src: nat, n: nat) returns (r: nat)
    requires dst + n <= mem.Length && src + n <= mem.Length
    requires SMALL <= n && dst != src ==> ForwardSafe(dst, src, n)
    requires 0 < n < SMALL && dst != src ==> hhdm + dst + n <= mem.Length
    modifies mem
    ensures r == dst
    ensures mem[..] == if n == 0 || dst == src then old(mem[..])
                       else if n < SMALL then Smeared(old(mem[..]), hhdm + dst, src, n)
                       else Copied(old(mem[..]), dst, src, n)
  {
    if n == 0 || dst == src {
      return dst;
    }
    if n < SMALL {
      r := Memcpy(mem, hhdm, dst, src, n);
      return;
    }
    ghost var m := mem[..];
    CopyingUpStart(mem, m, dst, src, n);
    var remaining := CopyForwardAlign(mem, m, dst, src, n);
    remaining := CopyForwardWords(mem, m, dst, src, n, remaining);
    CopyForwardTail(mem, m, dst, src, n, remaining);
    r := dst;
  }

  /** `copy_forward_align`: single bytes until the destination pointer is
      8-aligned. */
  method CopyForwardAlign(mem: array<bv8>, ghost m: seq<bv8>, dst: nat, src: nat, n: nat) returns (remaining: nat)
    requires CopyingUp(mem, m, dst, src, n, 0)
    modifies mem
    ensures remaining <= n && CopyingUp(mem, m, dst, src, n, n - remaining)
    ensures remaining == 0 || (dst + (n - remaining)) % WORD == 0
  {
    var d := dst;
    remaining := n;
    while remaining != 0 && d % WORD != 0
      invariant remaining <= n && CopyingUp(mem, m, dst, src, n, n - remaining) && d == dst + (n - remaining)
    {
      CopyByte(mem, m, dst, src, n, n - remaining);
      d, remaining := d + 1, remaining - 1;
    }
  }

  /** The word loops of `memcpy_fast`: four words at a time, then single
      words, until fewer than eight bytes remain. */
  method CopyForwardWords(mem: array<bv8>, ghost m: seq<bv8>, dst: nat, src: nat, n: nat, r0: nat) returns (remaining: nat)
    requires r0 <= n && CopyingUp(mem, m, dst, src, n, n - r0)
    modifies mem
    ensures remaining <= n && CopyingUp(mem, m, dst, src, n, n - remaining) && remaining < WORD
  {
    remaining := r0;
    while remaining >= 4 * WORD
      invariant remaining <= n && CopyingUp(mem, m, dst, src, n, n - remaining)
    {
      WordUp(mem, m, dst, src, n, n - remaining);
      WordUp(mem, m, dst, src, n, n - remaining + WORD);
      WordUp(mem, m, dst, src, n, n - remaining + 2 * WORD);
      WordUp(mem, m, dst, src, n, n - remaining + 3 * WORD);
      remaining := remaining - 4 * WORD;
    }
    while remaining >= WORD
      invariant remaining <= n && CopyingUp(mem, m, dst, src, n, n - remaining)
    {
      WordUp(mem, m, dst, src, n, n - remaining);
      remaining := remaining - WORD;
    }
  }

  /** The last bytes of `memcpy_fast`. */
  method CopyForwardTail(mem: array<bv8>, ghost m: seq<bv8>, dst: nat, src: nat, n: nat, r0: nat)
    requires r0 <= n && CopyingUp(mem, m, dst, src, n, n - r0)
    modifies mem
    ensures mem[..] == Copied(m, dst, src, n)
  {
    var remaining := r0;
    while remaining != 0
      invariant remaining <= n && CopyingUp(mem, m, dst, src, n, n - remaining)
    {
      CopyByte(mem, m, dst, src, n, n - remaining);
      remaining := remaining - 1;
    }
    CopyingUpDone(mem, m, dst, src, n);
  }

  /** `memmove_fast`. Nothing happens for zero bytes or a move onto
      itself; a destination below the source goes to `memcpy_fast`; under
      32 bytes `memmove` does the work; otherwise the word-at-a-time copy
      runs from the top down and writes at `dst`. */
  method MemmoveFast(mem: array<bv8>, hhdm: nat, dst: nat, src: nat, n: nat) returns (r: nat)
    requires dst + n <= mem.Length && src + n <= mem.Length
    requires 0 < n < SMALL && dst < src ==> hhdm + dst + n <= mem.Length
    modifies mem
    ensures r == dst
    ensures mem[..] == if n == 0 || dst == src then old(mem[..])
                       else if dst < src && n < SMALL then Smeared(old(mem[..]), hhdm + dst, src, n)
                       else Copied(old(mem[..]), dst, src, n)
  {
    if n == 0 || dst == src {
      return dst;
    }
    if dst < src {
      r := MemcpyFast(mem, hhdm, dst, src, n);
      return;
    }
    if n < SMALL {
      r := Memmove(mem, dst, src, n);
      return;
    }
    ghost var m := mem[..];
    CopyingDownStart(mem, m, dst, src, n);
    var remaining := CopyBackwardAlign(mem, m, dst, src, n);
    remaining := CopyBackwardWords(mem, m, dst, src, n, remaining);
    CopyBackwardTail(mem, m, dst, src, n, remaining);
    r := dst;
  }

  /** `copy_backward_align`: single bytes, from the top, until the
      destination end pointer is 8-aligned. */
  method CopyBackwardAlign(mem: array<bv8>, ghost m: seq<bv8>, dst: nat, src: nat, n: nat) returns (remaining: nat)
    requires CopyingDown(mem, m, dst, src, n, n)
    modifies mem
    ensures CopyingDown(mem, m, dst, src, n, remaining)
    ensures remaining == 0 || (dst + remaining) % WORD == 0
  {
    var dEnd := dst + n;
    remaining := n;
    while remaining != 0 && dEnd % WORD != 0
      invariant CopyingDown(mem, m, dst, src, n, remaining) && dEnd == dst + remaining
    {
      CopyByteBack(mem, m, dst, src, n, remaining);
      dEnd, remaining := dEnd - 1, remaining - 1;
    }
  }

  /** The word loops of `memmove_fast`, from the top down. */
  method CopyBackwardWords(mem: array<bv8>, ghost m: seq<bv8>, dst: nat, src: nat, n: nat, r0: nat) returns (remaining: nat)
    requires CopyingDown(mem, m, dst, src, n, r0)
    modifies mem
    ensures CopyingDown(mem, m, dst, src, n, remaining) && remaining < WORD
  {
    remaining := r0;
    while remaining >= 4 * WORD
      invariant CopyingDown(mem, m, dst, src, n, remaining)
    {
      WordDown(mem, m, dst, src, n, remaining);
      WordDown(mem, m, dst, src, n, remaining - WORD);
      WordDown(mem, m, dst, src, n, remaining - 2 * WORD);
      WordDown(mem, m, dst, src, n, remaining - 3 * WORD);
      remaining := remaining - 4 * WORD;
    }
    while remaining >= WORD
      invariant CopyingDown(mem, m, dst, src, n, remaining)
    {
      WordDown(mem, m, dst, src, n, remaining);
      remaining := remaining - WORD;
    }
  }

  /** The last bytes of `memmove_fast`, at the bottom of the region. */
  method CopyBackwardTail(mem: array<bv8>, ghost m: seq<bv8>, dst: nat, src: nat, n: nat, r0: nat)
    requires CopyingDown(mem, m, dst, src, n, r0)
    modifies mem
    ensures mem[..] == Copied(m, dst, src, n)
  {
    var remaining := r0;
    while remaining != 0
      invariant CopyingDown(mem, m, dst, src, n, remaining)
    {
      CopyByteBack(mem, m, dst, src, n, remaining);
      remaining := remaining - 1;
    }
    CopyingDownDone(mem, m, dst, src, n);
  }

  /** `memset_fast`. Nothing happens for zero bytes; under 32 bytes
      `memset` does the work, at the HHDM-shifted address; otherwise bytes
      up to an 8-aligned address, then pattern words, then the remaining
      bytes, all at `dst`. */
  method MemsetFast(mem: array<bv8>, hhdm: nat, dst: nat, val: bv8, n: nat) returns (r: nat)
    requires dst + n <= mem.Length
    requires 0 < n < SMALL ==> hhdm + dst + n <= mem.Length
    modifies mem
    ensures r == dst
    ensures mem[..] == if n == 0 then old(mem[..])
                       else if n < SMALL then Filled(old(mem[..]), hhdm + dst, n, val)
                       else Filled(old(mem[..]), dst, n, val)
  {
    if n == 0 {
      return dst;
    }
    if n < SMALL {
      r := Memset(mem, hhdm, dst, val, n);
      return;
    }
    ghost var m := mem[..];
    FillingStart(mem, m, dst, n, val);
    var remaining := FillAlign(mem, m, dst, n, val);
    var pattern := Pattern(val);
    remaining := FillWords(mem, m, dst, n, val, pattern, remaining);
    FillTail(mem, m, dst, n, val, remaining);
    r := dst;
  }

  /** The alignment loop of `memset_fast`. */
  method FillAlign(mem: array<bv8>, ghost m: seq<bv8>, dst: nat, n: nat, v: bv8) returns (remaining: nat)
    requires Filling(mem, m, dst, n, v, 0)
    modifies mem
    ensures remaining <= n && Filling(mem, m, dst, n, v, n - remaining)
    ensures remaining == 0 || (dst + (n - remaining)) % WORD == 0
  {
    var d := dst;
    remaining := n;
    while remaining != 0 && d % WORD != 0
      invariant remaining <= n && Filling(mem, m, dst, n, v, n - remaining) && d == dst + (n - remaining)
    {
      FillByte(mem, m, dst, n, v, n - remaining);
      d, remaining := d + 1, remaining - 1;
    }
  }

  /** The pattern-word loops of `memset_fast`. */
  method FillWords(mem: array<bv8>, ghost m: seq<bv8>, dst: nat, n: nat, v: bv8, pattern: seq<bv8>, r0: nat) returns (remaining: nat)
    requires r0 <= n && Filling(mem, m, dst, n, v, n - r0)
    requires IsWord(pattern) && forall j :: 0 <= j < 8 ==> pattern[j] == v
    modifies mem
    ensures remaining <= n && Filling(mem, m, dst, n, v, n - remaining) && remaining < WORD
  {
    remaining := r0;
    while remaining >= 4 * WORD
      invariant remaining <= n && Filling(mem, m, dst, n, v, n - remaining)
    {
      WordFill(mem, m, dst, n, v, pattern, n - remaining);
      WordFill(mem, m, dst, n, v, pattern, n - remaining + WORD);
      WordFill(mem, m, dst, n, v, pattern, n - remaining + 2 * WORD);
      WordFill(mem, m, dst, n, v, pattern, n - remaining + 3 * WORD);
      remaining := remaining - 4 * WORD;
    }
    while remaining >= WORD
      invariant remaining <= n && Filling(mem, m, dst, n, v, n - remaining)
    {
      WordFill(mem, m, dst, n, v, pattern, n - remaining);
      remaining := remaining - WORD;
    }
  }

  /** The last bytes of `memset_fast`. */
  method FillTail(mem: array<bv8>, ghost m: seq<bv8>, dst: nat, n: nat, v: bv8, r0: nat)
    requires r0 <= n && Filling(mem, m, dst, n, v, n - r0)
    modifies mem
    ensures mem[..] == Filled(m, dst, n, v)
  {
    var remaining := r0;
    while remaining != 0
      invariant remaining <= n && Filling(mem, m, dst, n, v, n - remaining)
    {
      FillByte(mem, m, dst, n, v, n - remaining);
      remaining := remaining - 1;
    }
    FillingDone(mem, m, dst, n, v);
  }
}
