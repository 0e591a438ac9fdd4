/** The multiboot kernel's keyboard driver (src/driver/keyboard.cpp,
    include/driver/keyboard.hpp). It shares the 64-slot scan-code ring of
    the newer driver but does no decoding: `kb_process_queue` hands every
    raw byte, release bit and all, to the listener. */
module SrcKeyboard {
  import opened Wrappers
  import opened Listeners
  import ScanRing

  /** Set-1 make codes the game reacts to. */
  const KEY_ESCAPE: int := 0x01
  const KEY_SPACE: int := 0x39
  const KEY_ARROW_UP: int := 0x48
  const KEY_ARROW_DOWN: int := 0x50
  const KEY_ARROW_LEFT: int := 0x4b
  const KEY_ARROW_RIGHT: int := 0x4d
  const KEY_R: int := 0x13
  const KEY_P: int := 0x19

  class Keyboard {
    const queue: ScanRing.Buffer
    var listener: Option<nat>
    var delivered: seq<(nat, int)>

    ghost predicate Valid()
      reads queue, queue.buf
    {
      queue.Valid()
    }

    constructor ()
      ensures Valid() && fresh(queue) && fresh(queue.buf)
      ensures queue.Value() == ScanRing.Empty
      ensures listener == None && delivered == []
    {
      queue := new ScanRing.Buffer();
      listener := None;
      delivered := [];
    }

    /** `kb_handler`: queue the byte read from port 0x60. */
    method Handler(sc: int)
      requires Valid() && 0 <= sc < 256
      modifies queue`head, queue.buf
      ensures Valid() && queue.Value() == ScanRing.Enqueued(old(queue.Value()), sc)
    {
      queue.Enqueue(sc);
    }

    /** `kb_register_listener` */
    method RegisterListener(id: nat)
      modifies this`listener
      ensures listener == Some(id)
    {
      listener := Some(id);
    }

    /** `kb_unregister_listener` */
    method UnregisterListener()
      modifies this`listener
      ensures listener == None
    {
      listener := None;
    }

    /** `kb_process_queue`: every readable byte goes to the listener, oldest
        first; the staged byte stays queued. */
    method ProcessQueue()
      requires Valid()
      modifies queue`tail, this`delivered
      ensures Valid()
      ensures ScanRing.Pending(queue.Value()) == []
      ensures ScanRing.Staged(queue.Value()) == ScanRing.Staged(old(queue.Value()))
      ensures delivered == old(delivered) + Deliver(listener, ScanRing.Pending(old(queue.Value())))
    {
      ghost var todo := ScanRing.Pending(queue.Value());
      ghost var i := 0;
      while true
        invariant Valid()
        invariant 0 <= i <= |todo| && ScanRing.Pending(queue.Value()) == todo[i..]
        invariant ScanRing.Staged(queue.Value()) == ScanRing.Staged(old(queue.Value()))
        invariant delivered == old(delivered) + Deliver(listener, todo[..i])
        decreases |todo| - i
      {
        var ok, sc := queue.Dequeue();
        if !ok {
          break;
        }
        assert sc == todo[i] && ScanRing.Pending(queue.Value()) == todo[i + 1..] by {
          assert todo[i..][1..] == todo[i + 1..];
        }
        Forward(sc, old(delivered), todo[..i]);
        assert todo[..i + 1] == todo[..i] + [sc];
        i := i + 1;
      }
      assert todo[..i] == todo;
    }

    /** `if (g_listener) g_listener(sc);` after the bytes `sent`. */
    method Forward(sc: int, ghost base: seq<(nat, int)>, ghost sent: seq<int>)
      requires delivered == base + Deliver(listener, sent)
      modifies this`delivered
      ensures delivered == base + Deliver(listener, sent + [sc])
    {
      DeliverSnoc(listener, sent, sc);
      if listener.Some? {
        delivered := delivered + [(listener.value, sc)];
      }
    }
  }

  /** From boot, the first `kb_process_queue` hands the listener a zero byte
      and then every queued byte but the last. */
  lemma BootForwarding(listener: Option<nat>, bs: seq<int>)
    requires forall k :: 0 <= k < |bs| ==> 0 <= bs[k] < 256
    requires 0 < |bs| < ScanRing.Size
    ensures Deliver(listener, ScanRing.Pending(ScanRing.EnqueuedAll(ScanRing.Empty, bs)))
      == Deliver(listener, [0] + bs[..|bs| - 1])
  {
    ScanRing.FirstReadIsZero(bs);
  }
}
