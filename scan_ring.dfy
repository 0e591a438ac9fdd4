/** The 64-slot scan-code ring shared, line for line, by both keyboard
    drivers (kernel/src/driver/ps2/keyboard.cpp:11-27 and
    src/driver/keyboard.cpp:9-25), as a value with pure enqueue and dequeue.

    `kb_enqueue` stores into slot head+1 and then advances head, while
    `kb_dequeue` reads slot tail and then advances tail. The bytes a dequeue
    can return are therefore the slots tail, tail+1, ..., head-1: the slot at
    head holds the newest byte, which only becomes readable once the next
    byte is enqueued. `Pending` and `Staged` name these two parts. */
module ScanRing {

  const Size: int := 64

  datatype Ring = Ring(buf: seq<int>, head: int, tail: int)

  /** The static zero-initialised buffer and indices. */
  const Empty: Ring := Ring(seq(Size, _ => 0), 0, 0)

  predicate Wf(r: Ring) {
    |r.buf| == Size && 0 <= r.head < Size && 0 <= r.tail < Size
    && forall k :: 0 <= k < Size ==> 0 <= r.buf[k] < 256
  }

  /** The bytes successive dequeues return, oldest first. */
  function Pending(r: Ring): (p: seq<int>)
    requires Wf(r)
    ensures |p| == (r.head - r.tail) % Size && |p| < Size
    ensures forall k :: 0 <= k < |p| ==> 0 <= p[k] < 256
  {
    seq((r.head - r.tail) % Size, k => r.buf[(r.tail + k) % Size])
  }

  /** The byte in slot head: written, but not yet readable. */
  function Staged(r: Ring): int
    requires Wf(r)
  {
    r.buf[r.head]
  }

  /** `kb_enqueue`: a full ring (63 pending bytes) drops the byte; otherwise
      the staged byte becomes the newest pending one and `sc` is staged. */
  function Enqueued(r: Ring, sc: int): (r': Ring)
    requires Wf(r) && 0 <= sc < 256
    ensures Wf(r')
    ensures |Pending(r)| == Size - 1 ==> r' == r
    ensures |Pending(r)| < Size - 1 ==> Pending(r') == Pending(r) + [Staged(r)] && Staged(r') == sc
  {
    var next := (r.head + 1) % Size;
    if next != r.tail then
      var r' := Ring(r.buf[next := sc], next, r.tail);
      EnqueueSlots(r, sc);
      r'
    else r
  }

  /** Slot arithmetic behind Enqueue, for c = (head - tail) mod 64 < 63:
      slot tail+c is head, slots tail..tail+c all differ from head+1, and
      head+1 lies c+1 slots after tail. */
  lemma SlotDistinct(h: int, t: int, k: int)
    requires 0 <= h < Size && 0 <= t < Size && (h - t) % Size < Size - 1
    requires 0 <= k <= (h - t) % Size
    ensures (t + k) % Size != (h + 1) % Size
    ensures (t + (h - t) % Size) % Size == h
    ensures ((h + 1) % Size - t) % Size == (h - t) % Size + 1
  {
    if h >= t {
      assert (h - t) % Size == h - t;
      assert (t + k) % Size == t + k;
      if h < Size - 1 {
        assert (h + 1) % Size == h + 1;
      } else {
        assert (h + 1) % Size == 0;
        assert (0 - t) % Size == Size - t;
      }
    } else {
      assert (h - t) % Size == h - t + Size;
      assert (h + 1) % Size == h + 1;
      assert (h + 1 - t) % Size == h + 1 - t + Size;
      if t + k < Size {
        assert (t + k) % Size == t + k;
      } else {
        assert (t + k) % Size == t + k - Size;
      }
      assert (t + (h - t + Size)) % Size == h;
    }
  }

  lemma EnqueueSlots(r: Ring, sc: int)
    requires Wf(r) && 0 <= sc < 256 && (r.head + 1) % Size != r.tail
    ensures var r' := Ring(r.buf[(r.head + 1) % Size := sc], (r.head + 1) % Size, r.tail);
      Wf(r') && Pending(r') == Pending(r) + [Staged(r)] && Staged(r') == sc
  {
    var next := (r.head + 1) % Size;
    var r' := Ring(r.buf[next := sc], next, r.tail);
    var c := (r.head - r.tail) % Size;
    SlotDistinct(r.head, r.tail, 0);
    assert Wf(r');
    var p, p', want := Pending(r), Pending(r'), Pending(r) + [Staged(r)];
    assert |p'| == c + 1 == |want|;
    forall k | 0 <= k < c + 1 ensures p'[k] == want[k] {
      EnqueueSlot(r, sc, k);
    }
    assert p' == want;
  }

  /** The k-th byte pending after an enqueue, one slot at a time. */
  lemma EnqueueSlot(r: Ring, sc: int, k: int)
    requires Wf(r) && 0 <= sc < 256 && (r.head + 1) % Size != r.tail
    requires 0 <= k <= (r.head - r.tail) % Size
    ensures var r' := Ring(r.buf[(r.head + 1) % Size := sc], (r.head + 1) % Size, r.tail);
      Wf(r') && k < |Pending(r')| && Pending(r')[k] == (Pending(r) + [Staged(r)])[k]
  {
    var r' := Ring(r.buf[(r.head + 1) % Size := sc], (r.head + 1) % Size, r.tail);
    var c := (r.head - r.tail) % Size;
    SlotDistinct(r.head, r.tail, k);
    assert Wf(r');
    var p, p', want := Pending(r), Pending(r'), Pending(r) + [Staged(r)];
    assert p'[k] == r'.buf[(r.tail + k) % Size];
    if k < c {
      assert want[k] == p[k] == r.buf[(r.tail + k) % Size];
    } else {
      assert want[k] == r.buf[r.head];
    }
  }

  datatype Taken = Taken(ok: bool, sc: int, ring: Ring)

  /** `kb_dequeue`: fails on an empty ring, else returns slot tail and
      advances tail. */
  function Dequeued(r: Ring): (t: Taken)
    requires Wf(r)
    ensures Wf(t.ring)
    ensures t.ok <==> Pending(r) != []
    ensures !t.ok ==> t.ring == r
    ensures t.ok ==> t.sc == Pending(r)[0] && Pending(t.ring) == Pending(r)[1..]
    ensures Staged(t.ring) == Staged(r)
  {
    if r.tail == r.head then Taken(false, 0, r)
    else
      DequeueSlots(r);
      Taken(true, r.buf[r.tail], r.(tail := (r.tail + 1) % Size))
  }

  lemma DequeueSlots(r: Ring)
    requires Wf(r) && r.tail != r.head
    ensures var r' := r.(tail := (r.tail + 1) % Size);
      Wf(r') && Pending(r) != [] && r.buf[r.tail] == Pending(r)[0] && Pending(r') == Pending(r)[1..]
  {
    var r' := r.(tail := (r.tail + 1) % Size);
    assert Wf(r');
    var p, p' := Pending(r), Pending(r');
    assert |p'| == |p| - 1 && p != [] by {
      TailCount(r.head, r.tail);
    }
    assert r.buf[r.tail] == p[0] by {
      assert (r.tail + 0) % Size == r.tail;
    }
    forall k | 0 <= k < |p'| ensures p'[k] == p[k + 1] {
      DequeueSlot(r, k);
    }
    assert p' == p[1..];
  }

  /** The k-th byte pending after a dequeue is the (k+1)-th before it. */
  lemma DequeueSlot(r: Ring, k: int)
    requires Wf(r) && r.tail != r.head
    requires 0 <= k < (r.head - (r.tail + 1) % Size) % Size
    ensures var r' := r.(tail := (r.tail + 1) % Size);
      Wf(r') && k + 1 < |Pending(r)| && Pending(r')[k] == Pending(r)[k + 1]
  {
    var r' := r.(tail := (r.tail + 1) % Size);
    assert Wf(r');
    TailCount(r.head, r.tail);
    TailSlot(r.tail, k);
  }

  /** Advancing tail by one slot leaves one fewer byte between tail and head. */
  lemma TailCount(h: int, t: int)
    requires 0 <= h < Size && 0 <= t < Size && h != t
    ensures 0 < (h - t) % Size
    ensures (h - (t + 1) % Size) % Size == (h - t) % Size - 1
  {
    if h > t {
      assert (h - t) % Size == h - t;
      assert (t + 1) % Size == t + 1;
    } else if t < Size - 1 {
      assert (h - t) % Size == h - t + Size;
      assert (t + 1) % Size == t + 1;
      assert (h - (t + 1)) % Size == h - t - 1 + Size;
    } else {
      assert (h - t) % Size == h + 1;
      assert (t + 1) % Size == 0;
    }
  }

  lemma TailSlot(t: int, k: int)
    requires 0 <= t < Size && 0 <= k < Size
    ensures ((t + 1) % Size + k) % Size == (t + (k + 1)) % Size
  {
    if t < Size - 1 {
      assert (t + 1) % Size == t + 1;
    } else {
      assert (t + 1) % Size == 0;
      assert (t + (k + 1)) % Size == k;
    }
  }

  function EnqueuedAll(r: Ring, bs: seq<int>): (r': Ring)
    requires Wf(r) && forall k :: 0 <= k < |bs| ==> 0 <= bs[k] < 256
    ensures Wf(r')
    decreases |bs|
  {
    if bs == [] then r else EnqueuedAll(Enqueued(r, bs[0]), bs[1..])
  }

  /** One-behind delivery: after enqueueing bs into a ring with room for
      them, the readable bytes are the old pending ones, then the previously
      staged byte, then all of bs except its last byte, which stays staged. */
  lemma {:induction false} EnqueueAllOneBehind(r: Ring, bs: seq<int>)
    requires Wf(r) && forall k :: 0 <= k < |bs| ==> 0 <= bs[k] < 256
    requires |Pending(r)| + |bs| < Size
    ensures Pending(EnqueuedAll(r, bs)) == Pending(r) + ([Staged(r)] + bs)[..|bs|]
    ensures bs != [] ==> Staged(EnqueuedAll(r, bs)) == bs[|bs| - 1]
    ensures bs == [] ==> Staged(EnqueuedAll(r, bs)) == Staged(r)
    decreases |bs|
  {
    if bs != [] {
      var r1 := Enqueued(r, bs[0]);
      EnqueueAllOneBehind(r1, bs[1..]);
      ShiftWindow(Pending(r), Staged(r), bs);
    }
  }

  /** Sequence bookkeeping for one step of EnqueueAllOneBehind. */
  lemma ShiftWindow(p: seq<int>, s: int, bs: seq<int>)
    requires bs != []
    ensures (p + [s]) + ([bs[0]] + bs[1..])[..|bs| - 1] == p + ([s] + bs)[..|bs|]
    ensures bs[1..] != [] ==> bs[1..][|bs| - 2] == bs[|bs| - 1]
  {
    assert [bs[0]] + bs[1..] == bs;
    assert ([s] + bs)[..|bs|] == [s] + bs[..|bs| - 1];
  }

  /** From the boot state, the first byte read is the zero in slot 0 and
      the last enqueued byte is not readable. */
  lemma FirstReadIsZero(bs: seq<int>)
    requires forall k :: 0 <= k < |bs| ==> 0 <= bs[k] < 256
    requires 0 < |bs| < Size
    ensures Pending(EnqueuedAll(Empty, bs)) == [0] + bs[..|bs| - 1]
  {
    assert Wf(Empty);
    assert Pending(Empty) == [];
    EnqueueAllOneBehind(Empty, bs);
  }

  /** The ring never holds more than 63 readable bytes: once full, further
      bytes are dropped and nothing changes. */
  lemma {:induction false} FullRingDrops(r: Ring, bs: seq<int>)
    requires Wf(r) && forall k :: 0 <= k < |bs| ==> 0 <= bs[k] < 256
    requires |Pending(r)| == Size - 1
    ensures EnqueuedAll(r, bs) == r
    decreases |bs|
  {
    if bs != [] {
      FullRingDrops(Enqueued(r, bs[0]), bs[1..]);
    }
  }

  /** The driver's static state: `kb_buf`, `kb_buf_head` and `kb_buf_tail`. */
  class Buffer {
    const buf: array<int>
    var head: int
    var tail: int

    ghost function Value(): Ring
      reads this, buf
    {
      Ring(buf[..], head, tail)
    }

    ghost predicate Valid()
      reads this, buf
    {
      buf.Length == Size && Wf(Value())
    }

    /** The zero-initialised statics. */
    constructor ()
      ensures Valid() && Value() == Empty && fresh(buf)
    {
      buf := new int[Size](_ => 0);
      head, tail := 0, 0;
      new;
      assert buf[..] == Empty.buf;
    }

    /** `kb_enqueue`, which `kb_handler` calls with the byte read from the data port. */
    method Enqueue(sc: int)
      requires Valid() && 0 <= sc < 256
      modifies this`head, buf
      ensures Valid() && Value() == Enqueued(old(Value()), sc)
    {
      var next := (head + 1) % Size;
      if next != tail {
        buf[next] := sc;
        head := next;
      }
    }

    /** `kb_dequeue`: `ok` is its return value, `sc` what it stores through `out`. */
    method Dequeue() returns (ok: bool, sc: int)
      requires Valid()
      modifies this`tail
      ensures Valid() && Taken(ok, sc, Value()) == Dequeued(old(Value()))
      ensures ok <==> Pending(old(Value())) != []
      ensures ok ==> sc == Pending(old(Value()))[0] && Pending(Value()) == Pending(old(Value()))[1..]
      ensures !ok ==> Value() == old(Value())
      ensures Staged(Value()) == Staged(old(Value()))
    {
      if tail == head {
        return false, 0;
      }
      sc := buf[tail];
      tail := (tail + 1) % Size;
      ok := true;
    }
  }
}
