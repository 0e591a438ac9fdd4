/** Fixed-width C integer semantics used throughout the model.
    Dafny integers are unbounded; every narrowing conversion, wrap-around and
    truncating division of the C++ source is written out with these. */
module CInt {

  const TWO8: int := 0x100
  const TWO16: int := 0x1_0000
  const TWO32: int := 0x1_0000_0000
  const TWO64: int := 0x1_0000_0000_0000_0000

  /** Conversion to uint8_t: reduce modulo 2^8. */
  function U8(v: int): (r: int)
    ensures 0 <= r < TWO8
    ensures 0 <= v < TWO8 ==> r == v
  {
    v % TWO8
  }

  /** Conversion to uint16_t. */
  function U16(v: int): (r: int)
    ensures 0 <= r < TWO16
    ensures 0 <= v < TWO16 ==> r == v
  {
    v % TWO16
  }

  /** Conversion to uint32_t. */
  function U32(v: int): (r: int)
    ensures 0 <= r < TWO32
    ensures 0 <= v < TWO32 ==> r == v
  {
    v % TWO32
  }

  /** Conversion to uint64_t. */
  function U64(v: int): (r: int)
    ensures 0 <= r < TWO64
    ensures 0 <= v < TWO64 ==> r == v
  {
    v % TWO64
  }

  /** Conversion to int8_t (two's complement wrap). */
  function I8(v: int): (r: int)
    ensures -0x80 <= r < 0x80
    ensures -0x80 <= v < 0x80 ==> r == v
    ensures (r - v) % TWO8 == 0
  {
    if -0x80 <= v < 0x80 then v else (v + 0x80) % TWO8 - 0x80
  }

  /** Conversion to int16_t. */
  function I16(v: int): (r: int)
    ensures -0x8000 <= r < 0x8000
    ensures -0x8000 <= v < 0x8000 ==> r == v
    ensures (r - v) % TWO16 == 0
  {
    if -0x8000 <= v < 0x8000 then v else (v + 0x8000) % TWO16 - 0x8000
  }

  /** Conversion to int32_t. */
  function I32(v: int): (r: int)
    ensures -0x8000_0000 <= r < 0x8000_0000
    ensures -0x8000_0000 <= v < 0x8000_0000 ==> r == v
    ensures (r - v) % TWO32 == 0
  {
    if -0x8000_0000 <= v < 0x8000_0000 then v else (v + 0x8000_0000) % TWO32 - 0x8000_0000
  }

  /** Conversion to int64_t. */
  function I64(v: int): (r: int)
    ensures -0x8000_0000_0000_0000 <= r < 0x8000_0000_0000_0000
    ensures -0x8000_0000_0000_0000 <= v < 0x8000_0000_0000_0000 ==> r == v
    ensures (r - v) % TWO64 == 0
  {
    if -0x8000_0000_0000_0000 <= v < 0x8000_0000_0000_0000 then v
    else (v + 0x8000_0000_0000_0000) % TWO64 - 0x8000_0000_0000_0000
  }

  predicate InI8(v: int) { -0x80 <= v < 0x80 }
  predicate InU8(v: int) { 0 <= v < TWO8 }
  predicate InU16(v: int) { 0 <= v < TWO16 }
  predicate InU32(v: int) { 0 <= v < TWO32 }
  predicate InU64(v: int) { 0 <= v < TWO64 }
  predicate InI32(v: int) { -0x8000_0000 <= v < 0x8000_0000 }
  predicate InI64(v: int) { -0x8000_0000_0000_0000 <= v < 0x8000_0000_0000_0000 }

  /** C's `/` on signed operands: the quotient is truncated toward zero. */
  function TDiv(a: int, b: int): (q: int)
    requires b != 0
    ensures 0 <= a && 0 < b ==> q == a / b
    ensures a < 0 && 0 < b ==> q == -((-a) / b)
  {
    if (a >= 0) == (b > 0) then (if a >= 0 then a / b else (-a) / (-b))
    else -(Abs(a) / Abs(b))
  }

  /** C's `%`: the remainder has the sign of the dividend, a == TDiv(a, b) * b + TMod(a, b). */
  function TMod(a: int, b: int): (r: int)
    requires b != 0
    ensures a == TDiv(a, b) * b + r
  {
    a - TDiv(a, b) * b
  }

  /** Adding to a wrapped uint32 counter wraps like the unwrapped sum. */
  lemma U32AddWrap(a: int, b: int)
    ensures U32(U32(a) + b) == U32(a + b)
  {
    var q := a / TWO32;
    assert a == q * TWO32 + U32(a);
    var q2 := (U32(a) + b) / TWO32;
    assert U32(a) + b == q2 * TWO32 + U32(U32(a) + b);
    assert a + b == (q + q2) * TWO32 + U32(U32(a) + b);
  }

  function Abs(a: int): nat { if a < 0 then -a else a }

  /** The truncated quotient never exceeds the dividend's magnitude divided by the divisor's. */
  lemma TModBounds(a: int, b: int)
    requires b > 0
    ensures a >= 0 ==> 0 <= TMod(a, b) < b
    ensures a < 0 ==> -b < TMod(a, b) <= 0
  {
    if a < 0 {
      var q := (-a) / b;
      assert TDiv(a, b) == -q;
      assert -a == q * b + (-a) % b;
    }
  }
}

/** The Option type used for C's null pointers and absent boot responses. */
module Wrappers {
  datatype Option<+T> = None | Some(value: T)
}

/** Calls made through a C function pointer that may be null. The pointer is
    modelled by an identity; each call is recorded with its argument. */
module Listeners {
  import opened Wrappers

  /** The calls `if (listener) listener(x)` makes for each x of xs in turn. */
  function Deliver<T>(listener: Option<nat>, xs: seq<T>): (calls: seq<(nat, T)>)
    ensures listener == None ==> calls == []
    ensures listener.Some? ==> |calls| == |xs|
    ensures listener.Some? ==> forall k :: 0 <= k < |xs| ==> calls[k] == (listener.value, xs[k])
  {
    if listener == None then [] else seq(|xs|, k requires 0 <= k < |xs| => (listener.value, xs[k]))
  }

  /** One more argument appends at most one more call. */
  lemma DeliverSnoc<T>(listener: Option<nat>, xs: seq<T>, x: T)
    ensures Deliver(listener, xs + [x])
      == Deliver(listener, xs) + (if listener.Some? then [(listener.value, x)] else [])
  {
  }
}

/** Port I/O and the other side effects of the interrupt paths, as a log. */
module Ports {
  /** One effect, in the order it happens: a byte written to an I/O port,
      a call through a handler pointer (its identity and the vector it was
      called for), or an end-of-interrupt signal to the local APIC. */
  datatype Event = Out(port: int, value: bv8) | Call(handler: nat, vector: int) | ApicEoi

  /** The I/O ports: behind each port a byte register that reads as the
      last byte written to it, or as `initial` before any write; and the
      log of every effect so far. */
  class Bus {
    const initial: int -> bv8
    var latch: map<int, bv8>
    var log: seq<Event>

    /** `inb(port)`. */
    function Read(port: int): bv8
      reads this
    {
      if port in latch then latch[port] else initial(port)
    }

    constructor (initial: int -> bv8)
      ensures this.initial == initial && latch == map[] && log == []
    {
      this.initial := initial;
      latch := map[];
      log := [];
    }

    /** `outb(port, value)`. */
    method Out(port: int, value: bv8)
      modifies this
      ensures latch == old(latch)[port := value] && log == old(log) + [Event.Out(port, value)]
    {
      latch := latch[port := value];
      log := log + [Event.Out(port, value)];
    }

    /** A handler call or an APIC end-of-interrupt. */
    method Note(e: Event)
      requires !e.Out?
      modifies this`log
      ensures log == old(log) + [e]
    {
      log := log + [e];
    }
  }
}
