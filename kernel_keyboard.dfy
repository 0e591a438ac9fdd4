/** The Limine kernel's PS/2 keyboard driver
    (kernel/src/driver/ps2/keyboard.cpp, kernel/include/driver/ps2/keyboard.hpp).
    The interrupt handler only queues raw set-2 scan codes; `kb_process_queue`
    later turns them into key events, treating 0xE0 as the extended-key prefix
    and 0xF0 as the break (release) prefix, and hands each event to the
    registered listener. The listener is a function pointer the driver cannot
    see into, so it is modelled by an identity and every call is recorded. */
module KernelKeyboard {
  import opened Wrappers
  import ScanRing
  import opened Listeners

  const KEY_ESCAPE: int := 0x76
  const KEY_SPACE: int := 0x29
  const KEY_ARROW_UP: int := 0x75
  const KEY_ARROW_DOWN: int := 0x72
  const KEY_ARROW_LEFT: int := 0x6B
  const KEY_ARROW_RIGHT: int := 0x74
  const KEY_SHIFT_LEFT: int := 0x12
  const KEY_SHIFT_RIGHT: int := 0x59
  const KEY_CONTROL: int := 0x14
  const KEY_A: int := 0x1C
  const KEY_C: int := 0x21
  const KEY_D: int := 0x23
  const KEY_R: int := 0x2D
  const KEY_P: int := 0x4D
  const KEY_S: int := 0x1B
  const KEY_W: int := 0x1D
  const KEY_X: int := 0x22
  const KEY_Z: int := 0x1A

  const EXTENDED_PREFIX: int := 0xE0
  const BREAK_PREFIX: int := 0xF0

  datatype KeyEvent = KeyEvent(scancode: int, breakKey: bool, extendedKey: bool)

  predicate IsPrefix(sc: int) { sc == EXTENDED_PREFIX || sc == BREAK_PREFIX }

  /** The decoder's state: the events produced so far and the two flags
      (`break_key`, `ext_key`) that persist between calls. */
  datatype Decoder = Decoder(events: seq<KeyEvent>, brk: bool, ext: bool)

  /** One iteration of the `kb_process_queue` loop body. */
  function Step(d: Decoder, sc: int): (d': Decoder)
    ensures IsPrefix(sc) ==> d'.events == d.events
    ensures !IsPrefix(sc) ==> d'.events == d.events + [KeyEvent(sc, d.brk, d.ext)] && !d'.brk && !d'.ext
    ensures d'.brk <==> sc == BREAK_PREFIX || (d.brk && sc == EXTENDED_PREFIX)
    ensures d'.ext <==> sc == EXTENDED_PREFIX || (d.ext && sc == BREAK_PREFIX)
  {
    if sc == EXTENDED_PREFIX then d.(ext := true)
    else if sc == BREAK_PREFIX then d.(brk := true)
    else Decoder(d.events + [KeyEvent(sc, d.brk, d.ext)], false, false)
  }

  /** The decoder after consuming `bs` in order. */
  function Run(d: Decoder, bs: seq<int>): Decoder
    decreases |bs|
  {
    if bs == [] then d else Step(Run(d, bs[..|bs| - 1]), bs[|bs| - 1])
  }

  /** The bytes of `bs` that are not prefixes, in order. */
  function NonPrefix(bs: seq<int>): seq<int>
    decreases |bs|
  {
    if bs == [] then []
    else NonPrefix(bs[..|bs| - 1]) + (if IsPrefix(bs[|bs| - 1]) then [] else [bs[|bs| - 1]])
  }

  function Codes(evs: seq<KeyEvent>): (cs: seq<int>)
    ensures |cs| == |evs|
    ensures forall k :: 0 <= k < |evs| ==> cs[k] == evs[k].scancode
  {
    seq(|evs|, k requires 0 <= k < |evs| => evs[k].scancode)
  }

  /** Exactly one event per non-prefix byte, carrying that byte, appended to
      the events already produced. */
  lemma {:induction false} RunEvents(d: Decoder, bs: seq<int>)
    ensures Codes(Run(d, bs).events) == Codes(d.events) + NonPrefix(bs)
    ensures |Run(d, bs).events| == |d.events| + |NonPrefix(bs)|
    decreases |bs|
  {
    if bs != [] {
      var init := bs[..|bs| - 1];
      RunEvents(d, init);
      var d1 := Run(d, init);
      var x := bs[|bs| - 1];
      if !IsPrefix(x) {
        assert Codes(d1.events + [KeyEvent(x, d1.brk, d1.ext)]) == Codes(d1.events) + [x];
      }
    }
  }

  /** Feeding the bytes in two batches gives the same result as one batch:
      the prefix flags carry over between calls of `kb_process_queue`. */
  lemma {:induction false} RunConcat(d: Decoder, a: seq<int>, b: seq<int>)
    ensures Run(d, a + b) == Run(Run(d, a), b)
    decreases |b|
  {
    if b == [] {
      assert a + b == a;
    } else {
      var ab := a + b;
      assert ab[..|ab| - 1] == a + b[..|b| - 1];
      RunConcat(d, a, b[..|b| - 1]);
    }
  }

  /** A key code preceded by a run of prefixes yields one event whose break
      flag says a 0xF0 was seen and whose extended flag says a 0xE0 was
      seen, since the last event (or the flags left set before). */
  lemma {:induction false} PrefixedKey(d: Decoder, ps: seq<int>, sc: int)
    requires forall k :: 0 <= k < |ps| ==> IsPrefix(ps[k])
    requires !IsPrefix(sc)
    ensures Run(d, ps + [sc]) == Decoder(d.events + [KeyEvent(sc, d.brk || BREAK_PREFIX in ps, d.ext || EXTENDED_PREFIX in ps)], false, false)
  {
    PrefixFlags(d, ps);
    assert (ps + [sc])[..|ps|] == ps;
  }

  lemma {:induction false} PrefixFlags(d: Decoder, ps: seq<int>)
    requires forall k :: 0 <= k < |ps| ==> IsPrefix(ps[k])
    ensures Run(d, ps) == Decoder(d.events, d.brk || BREAK_PREFIX in ps, d.ext || EXTENDED_PREFIX in ps)
    decreases |ps|
  {
    if ps != [] {
      var init := ps[..|ps| - 1];
      PrefixFlags(d, init);
      assert ps == init + [ps[|ps| - 1]];
      assert BREAK_PREFIX in ps <==> BREAK_PREFIX in init || ps[|ps| - 1] == BREAK_PREFIX;
      assert EXTENDED_PREFIX in ps <==> EXTENDED_PREFIX in init || ps[|ps| - 1] == EXTENDED_PREFIX;
    }
  }

  /** The driver's statics: the scan-code ring, `g_listener`, `break_key`,
      `ext_key`, and the record of listener calls. */
  class Keyboard {
    const queue: ScanRing.Buffer
    var listener: Option<nat>
    var breakKey: bool
    var extKey: bool
    var delivered: seq<(nat, KeyEvent)>

    ghost predicate Valid()
      reads queue, queue.buf
    {
      queue.Valid()
    }

    constructor ()
      ensures Valid() && fresh(queue) && fresh(queue.buf)
      ensures queue.Value() == ScanRing.Empty
      ensures listener == None && !breakKey && !extKey && delivered == []
    {
      queue := new ScanRing.Buffer();
      listener := None;
      breakKey, extKey := false, false;
      delivered := [];
    }

    /** `kb_handler`: queue the byte read from the data port. */
    method Handler(sc: int)
      requires Valid() && 0 <= sc < 256
      modifies queue`head, queue.buf
      ensures Valid() && queue.Value() == ScanRing.Enqueued(old(queue.Value()), sc)
    {
      queue.Enqueue(sc);
    }

    /** `kb_register_listener` */
    method RegisterListener(id: nat)
      modifies this`listener
      ensures listener == Some(id)
    {
      listener := Some(id);
    }

    /** `kb_unregister_listener` */
    method UnregisterListener()
      modifies this`listener
      ensures listener == None
    {
      listener := None;
    }

    /** The body of the `kb_process_queue` loop for one dequeued byte;
        `evs` are the events decoded so far in this call. */
    method Decode(sc: int, ghost base: seq<(nat, KeyEvent)>, ghost evs: seq<KeyEvent>) returns (ghost evs': seq<KeyEvent>)
      requires delivered == base + Deliver(listener, evs)
      modifies this`breakKey, this`extKey, this`delivered
      ensures Decoder(evs', breakKey, extKey) == Step(Decoder(evs, old(breakKey), old(extKey)), sc)
      ensures delivered == base + Deliver(listener, evs')
    {
      evs' := evs;
      if sc == EXTENDED_PREFIX {
        extKey := true;
      } else if sc == BREAK_PREFIX {
        breakKey := true;
      } else {
        var ev := KeyEvent(sc, breakKey, extKey);
        breakKey, extKey := false, false;
        DeliverSnoc(listener, evs, ev);
        if listener.Some? {
          delivered := delivered + [(listener.value, ev)];
          assert delivered == base + (Deliver(listener, evs) + [(listener.value, ev)]);
        }
        evs' := evs + [ev];
      }
    }

    /** `kb_process_queue`: drain every readable byte through the decoder,
        passing each event to the listener. The staged byte stays queued. */
    method ProcessQueue()
      requires Valid()
      modifies queue`tail, this`breakKey, this`extKey, this`delivered
      ensures Valid()
      ensures ScanRing.Pending(queue.Value()) == []
      ensures ScanRing.Staged(queue.Value()) == ScanRing.Staged(old(queue.Value()))
      ensures var d := Run(Decoder([], old(breakKey), old(extKey)), ScanRing.Pending(old(queue.Value())));
        breakKey == d.brk && extKey == d.ext
        && delivered == old(delivered) + Deliver(listener, d.events)
    {
      ghost var todo := ScanRing.Pending(queue.Value());
      ghost var d0 := Decoder([], breakKey, extKey);
      ghost var evs: seq<KeyEvent> := [];
      ghost var i := 0;
      while true
        invariant Valid()
        invariant 0 <= i <= |todo| && ScanRing.Pending(queue.Value()) == todo[i..]
        invariant ScanRing.Staged(queue.Value()) == ScanRing.Staged(old(queue.Value()))
        invariant Run(d0, todo[..i]) == Decoder(evs, breakKey, extKey)
        invariant delivered == old(delivered) + Deliver(listener, evs)
        decreases |todo| - i
      {
        var ok, sc := queue.Dequeue();
        if !ok {
          break;
        }
        assert sc == todo[i] && ScanRing.Pending(queue.Value()) == todo[i + 1..] by {
          assert todo[i..][1..] == todo[i + 1..];
        }
        evs := Decode(sc, old(delivered), evs);
        assert Run(d0, todo[..i + 1]) == Decoder(evs, breakKey, extKey) by {
          assert todo[..i + 1][..i] == todo[..i];
        }
        i := i + 1;
      }
      assert todo[..i] == todo;
    }
  }

  /** From boot, the events of the first `kb_process_queue` come from a
      zero byte followed by every queued byte but the last. */
  lemma BootDelivery(bs: seq<int>)
    requires forall k :: 0 <= k < |bs| ==> 0 <= bs[k] < 256
    requires 0 < |bs| < ScanRing.Size
    ensures Codes(Run(Decoder([], false, false), ScanRing.Pending(ScanRing.EnqueuedAll(ScanRing.Empty, bs))).events)
      == NonPrefix([0] + bs[..|bs| - 1])
  {
    ScanRing.FirstReadIsZero(bs);
    RunEvents(Decoder([], false, false), [0] + bs[..|bs| - 1]);
  }
}
