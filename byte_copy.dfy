/** Byte-level memory shared by both memory libraries (kernel/src/memory/mem.cpp
    and src/lib/mem.cpp). Memory is one byte array indexed by address; the
    byte loops of `memcpy`, `memmove` and `memset` are specified by what
    they leave in it. */
module ByteCopy {

  /** `m` with the `n` bytes at `d` replaced by the `n` bytes that were at
      `s`: what a copy does when it reads every source byte before that
      byte is overwritten. */
  function Copied(m: seq<bv8>, d: nat, s: nat, n: nat): (r: seq<bv8>)
    requires d + n <= |m| && s + n <= |m|
    ensures |r| == |m|
    ensures forall k :: 0 <= k < |m| ==> r[k] == if d <= k < d + n then m[k - d + s] else m[k]
  {
    m[..d] + m[s..s + n] + m[d + n..]
  }

  /** `m` with the `n` bytes at `d` set to `v`. */
  function Filled(m: seq<bv8>, d: nat, n: nat, v: bv8): (r: seq<bv8>)
    requires d + n <= |m|
    ensures |r| == |m|
    ensures forall k :: 0 <= k < |m| ==> r[k] == if d <= k < d + n then v else m[k]
  {
    m[..d] + seq(n, _ => v) + m[d + n..]
  }

  /** What the low-to-high byte loop leaves after its first `i` steps,
      whatever the overlap: each step stores the byte that the source
      address holds at that moment, which an earlier step may already have
      overwritten. */
  function Smeared(m: seq<bv8>, d: nat, s: nat, i: nat): (r: seq<bv8>)
    requires d + i <= |m| && s + i <= |m|
    ensures |r| == |m|
    decreases i
  {
    if i == 0 then m
    else
      var p := Smeared(m, d, s, i - 1);
      p[d + i - 1 := p[s + i - 1]]
  }

  /** A low-to-high copy reads every source byte before overwriting it:
      the destination starts at or below the source, or after its end. */
  predicate ForwardSafe(d: nat, s: nat, n: nat)
  {
    d <= s || s + n <= d
  }

  /** A high-to-low copy reads every source byte before overwriting it. */
  predicate BackwardSafe(d: nat, s: nat, n: nat)
  {
    s <= d || d + n <= s
  }

  /** Copying a region onto itself, or copying nothing, changes nothing. */
  lemma CopiedNothing(m: seq<bv8>, d: nat, s: nat, n: nat)
    requires d + n <= |m| && s + n <= |m| && (d == s || n == 0)
    ensures Copied(m, d, s, n) == m
  {
  }

  /** When the destination starts at or below the source, or after its
      end, no step reads a byte an earlier step wrote: the first `i` steps
      leave each of the first `i` destination bytes equal to the old source bytes
      and every other byte as it was. */
  lemma {:induction false} SmearedPrefix(m: seq<bv8>, d: nat, s: nat, n: nat, i: nat, k: nat)
    requires d + n <= |m| && s + n <= |m| && ForwardSafe(d, s, n) && i <= n && k < |m|
    ensures Smeared(m, d, s, i)[k] == if d <= k < d + i then m[k - d + s] else m[k]
    decreases i
  {
    if i > 0 {
      SmearedPrefix(m, d, s, n, i - 1, s + i - 1);
      if k != d + i - 1 {
        SmearedPrefix(m, d, s, n, i - 1, k);
      }
    }
  }

  /** So the low-to-high loop is a true copy exactly where `memcpy` is
      meant to be used. */
  lemma SmearedSafe(m: seq<bv8>, d: nat, s: nat, n: nat)
    requires d + n <= |m| && s + n <= |m| && ForwardSafe(d, s, n)
    ensures Smeared(m, d, s, n) == Copied(m, d, s, n)
  {
    forall k | 0 <= k < |m|
      ensures Smeared(m, d, s, n)[k] == Copied(m, d, s, n)[k]
    {
      SmearedPrefix(m, d, s, n, n, k);
    }
  }

  /** A destination one byte above its source repeats the first source
      byte instead of copying: `[1, 2, 3]` copied two bytes up from 0 to 1
      becomes `[1, 1, 1]`, not `[1, 1, 2]`. */
  lemma SmearedOverlap()
    ensures Smeared([1, 2, 3], 1, 0, 2) == [1, 1, 1]
    ensures Copied([1, 2, 3], 1, 0, 2) == [1, 1, 2]
  {
    assert Smeared([1, 2, 3], 1, 0, 1) == [1, 1, 3];
  }

  // ------------------------------------------------------ loop states

  /** Part way through a low-to-high copy from `m`: the first `i` bytes are
      done and every other byte is as it was. */
  ghost predicate CopyingUp(mem: array<bv8>, m: seq<bv8>, d: nat, s: nat, n: nat, i: nat)
    reads mem
  {
    && |m| == mem.Length && d + n <= mem.Length && s + n <= mem.Length
    && ForwardSafe(d, s, n) && i <= n
    && forall k {:trigger mem[k]} :: 0 <= k < mem.Length ==> mem[k] == if d <= k < d + i then m[k - d + s] else m[k]
  }

  /** Part way through a high-to-low copy from `m`: the bytes from `i` up
      are done and every other byte is as it was. */
  ghost predicate CopyingDown(mem: array<bv8>, m: seq<bv8>, d: nat, s: nat, n: nat, i: nat)
    reads mem
  {
    && |m| == mem.Length && d + n <= mem.Length && s + n <= mem.Length
    && BackwardSafe(d, s, n) && i <= n
    && forall k {:trigger mem[k]} :: 0 <= k < mem.Length ==> mem[k] == if d + i <= k < d + n then m[k - d + s] else m[k]
  }

  /** Part way through a fill of `m`: the first `i` bytes are set. */
  ghost predicate Filling(mem: array<bv8>, m: seq<bv8>, d: nat, n: nat, v: bv8, i: nat)
    reads mem
  {
    && |m| == mem.Length && d + n <= mem.Length && i <= n
    && forall k {:trigger mem[k]} :: 0 <= k < mem.Length ==> mem[k] == if d <= k < d + i then v else m[k]
  }

  lemma CopyingUpStart(mem: array<bv8>, m: seq<bv8>, d: nat, s: nat, n: nat)
    requires mem[..] == m && d + n <= mem.Length && s + n <= mem.Length && ForwardSafe(d, s, n)
    ensures CopyingUp(mem, m, d, s, n, 0)
  {
    assert forall k :: 0 <= k < mem.Length ==> mem[k] == m[k];
  }

  lemma CopyingDownStart(mem: array<bv8>, m: seq<bv8>, d: nat, s: nat, n: nat)
    requires mem[..] == m && d + n <= mem.Length && s + n <= mem.Length && BackwardSafe(d, s, n)
    ensures CopyingDown(mem, m, d, s, n, n)
  {
    assert forall k :: 0 <= k < mem.Length ==> mem[k] == m[k];
  }

  lemma FillingStart(mem: array<bv8>, m: seq<bv8>, d: nat, n: nat, v: bv8)
    requires mem[..] == m && d + n <= mem.Length
    ensures Filling(mem, m, d, n, v, 0)
  {
    assert forall k :: 0 <= k < mem.Length ==> mem[k] == m[k];
  }

  /** A finished low-to-high copy leaves `Copied`. */
  lemma CopyingUpDone(mem: array<bv8>, m: seq<bv8>, d: nat, s: nat, n: nat)
    requires CopyingUp(mem, m, d, s, n, n)
    ensures mem[..] == Copied(m, d, s, n)
  {
    var c := Copied(m, d, s, n);
    forall k | 0 <= k < mem.Length
      ensures mem[..][k] == c[k]
    {
      assert mem[k] == c[k];
    }
  }

  /** A finished high-to-low copy leaves `Copied` too. */
  lemma CopyingDownDone(mem: array<bv8>, m: seq<bv8>, d: nat, s: nat, n: nat)
    requires CopyingDown(mem, m, d, s, n, 0)
    ensures mem[..] == Copied(m, d, s, n)
  {
    var c := Copied(m, d, s, n);
    forall k | 0 <= k < mem.Length
      ensures mem[..][k] == c[k]
    {
      assert mem[k] == c[k];
    }
  }

  /** A finished fill leaves `Filled`. */
  lemma FillingDone(mem: array<bv8>, m: seq<bv8>, d: nat, n: nat, v: bv8)
    requires Filling(mem, m, d, n, v, n)
    ensures mem[..] == Filled(m, d, n, v)
  {
    var c := Filled(m, d, n, v);
    forall k | 0 <= k < mem.Length
      ensures mem[..][k] == c[k]
    {
      assert mem[k] == c[k];
    }
  }

  // ------------------------------------------------------- byte loops

  /** `for (i = 0; i < n; i++) dst[i] = src[i];`, whatever the overlap. */
  method CopyForward(mem: array<bv8>, d: nat, s: nat, n: nat)
    requires d + n <= mem.Length && s + n <= mem.Length
    modifies mem
    ensures mem[..] == Smeared(old(mem[..]), d, s, n)
  {
    ghost var m := mem[..];
    var i := 0;
    while i < n
      invariant i <= n && mem[..] == Smeared(m, d, s, i)
    {
      mem[d + i] := mem[s + i];
      i := i + 1;
    }
  }

  /** One byte of a forward copy: `dst[i] = src[i]`. The source byte is
      still the original: it lies at or above the next destination byte,
      or outside the destination. */
  method CopyByte(mem: array<bv8>, ghost m: seq<bv8>, d: nat, s: nat, n: nat, i: nat)
    requires CopyingUp(mem, m, d, s, n, i) && i < n
    modifies mem
    ensures CopyingUp(mem, m, d, s, n, i + 1)
  {
    assert mem[s + i] == m[s + i];
    mem[d + i] := mem[s + i];
  }

  /** `for (i = n; i != 0; i--) dst[i - 1] = src[i - 1];` */
  method CopyBackward(mem: array<bv8>, d: nat, s: nat, n: nat)
    requires d + n <= mem.Length && s + n <= mem.Length && BackwardSafe(d, s, n)
    modifies mem
    ensures mem[..] == Copied(old(mem[..]), d, s, n)
  {
    ghost var m := mem[..];
    CopyingDownStart(mem, m, d, s, n);
    var i := n;
    while i != 0
      invariant CopyingDown(mem, m, d, s, n, i)
      decreases i
    {
      CopyByteBack(mem, m, d, s, n, i);
      i := i - 1;
    }
    CopyingDownDone(mem, m, d, s, n);
  }

  /** One byte of a backward copy: `dst[i - 1] = src[i - 1]`. */
  method CopyByteBack(mem: array<bv8>, ghost m: seq<bv8>, d: nat, s: nat, n: nat, i: nat)
    requires CopyingDown(mem, m, d, s, n, i) && i != 0
    modifies mem
    ensures CopyingDown(mem, m, d, s, n, i - 1)
  {
    assert mem[s + i - 1] == m[s + i - 1];
    mem[d + i - 1] := mem[s + i - 1];
  }

  /** `for (i = 0; i < n; i++) p[i] = val;` */
  method Fill(mem: array<bv8>, d: nat, n: nat, v: bv8)
    requires d + n <= mem.Length
    modifies mem
    ensures mem[..] == Filled(old(mem[..]), d, n, v)
  {
    ghost var m := mem[..];
    FillingStart(mem, m, d, n, v);
    var i := 0;
    while i < n
      invariant Filling(mem, m, d, n, v, i)
    {
      FillByte(mem, m, d, n, v, i);
      i := i + 1;
    }
    FillingDone(mem, m, d, n, v);
  }

  /** One byte of a fill: `p[i] = val`. */
  method FillByte(mem: array<bv8>, ghost m: seq<bv8>, d: nat, n: nat, v: bv8, i: nat)
    requires Filling(mem, m, d, n, v, i) && i < n
    modifies mem
    ensures Filling(mem, m, d, n, v, i + 1)
  {
    mem[d + i] := v;
  }
}
