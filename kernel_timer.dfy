/** The PIT timer driver (kernel/src/driver/timer.cpp): the 64-bit tick
    counter advanced by IRQ 0, the channel 0 divisor, and the busy wait that
    compares tick counts through a wrapping 32-bit difference. */
module KernelTimer {
  import opened CInt
  import opened Ports
  import opened Wrappers
  import KernelSound
  import KernelPic

  const PIT_CHANNEL0: int := 0x40
  /** Channel 0, low byte then high byte, rate generator. */
  const TIMER_MODE: bv8 := 0x36
  /** The identity under which `timer_handler` is installed at IRQ 0. */
  const TIMER_HANDLER: nat := 0

  /** The writes of `set_pit(frequency)`. */
  function SetPitEvents(frequency: int): seq<Event>
    requires 0 < frequency
  {
    var d := KernelSound.Divisor(frequency);
    [ Out(KernelSound.PIT_COMMAND, TIMER_MODE),
      Out(PIT_CHANNEL0, KernelSound.LowByte(d)),
      Out(PIT_CHANNEL0, KernelSound.HighByte(d)) ]
  }

  /** The channel 0 reload value the PIT sees after `set_pit(frequency)`:
      the divisor's low 16 bits, so 11931 for the 100 Hz the kernel asks for. */
  lemma SetPitReload(frequency: int)
    requires 0 < frequency
    ensures var es := SetPitEvents(frequency);
      es[1].value as int + 256 * es[2].value as int == KernelSound.Divisor(frequency) % 0x1_0000
    ensures frequency == 100 ==>
      SetPitEvents(frequency)[1].value as int + 256 * SetPitEvents(frequency)[2].value as int == 11931
  {
    KernelSound.DivisorBytes(KernelSound.Divisor(frequency));
  }

  /** `wait`'s loop test: keep halting while the 32-bit difference between
      the target and the current count, read as an `int32_t`, is positive. */
  predicate Waiting(target: int, now: int)
  {
    I32(target - now) > 0
  }

  /** The target `wait(ticks)` computes when the count is `start`: the
      uint64 sum truncated to uint32. */
  function Target(start: int, ticks: int): int
  {
    U32(start + ticks)
  }

  /** `wait(ticks)` halts exactly until `ticks` ticks have passed since it
      started, across the wrap of the 32-bit target, provided the wait is
      shorter than 2^31 ticks and is checked before 2^31 ticks have passed. */
  lemma WaitEnds(start: int, ticks: int, now: int)
    requires 0 <= ticks < 0x8000_0000 && start <= now < start + 0x8000_0000
    ensures Waiting(Target(start, ticks), now) <==> now - start < ticks
  {
    var d := start + ticks - now;
    assert -0x8000_0000 < d < 0x8000_0000;
    SameI32(Target(start, ticks) - now, d);
  }

  /** `int32_t` conversion depends only on the value modulo 2^32. */
  lemma SameI32(a: int, b: int)
    requires InI32(b) && (a - b) % TWO32 == 0
    ensures I32(a) == b
  {
    var r := I32(a);
    assert (r - b) % TWO32 == 0 by {
      assert r - b == (r - a) + (a - b);
      AddMultiples(r - a, a - b);
    }
    assert -TWO32 < r - b < TWO32;
  }

  lemma AddMultiples(x: int, y: int)
    requires x % TWO32 == 0 && y % TWO32 == 0
    ensures (x + y) % TWO32 == 0
  {
    assert x == TWO32 * (x / TWO32);
    assert y == TWO32 * (y / TWO32);
    assert x + y == TWO32 * (x / TWO32 + y / TWO32);
  }

  /** `wait_ms` waits whole 10 ms ticks, rounding down. */
  function MsTicks(ms: int): (t: int)
    requires InU32(ms)
    ensures 0 <= t && 10 * t <= ms < 10 * t + 10
  {
    ms / 10
  }

  /** The statics `timer_ticks` and the speaker the handler drives. */
  class Timer {
    var ticks: int
    const sound: KernelSound.Sound
    const bus: Bus

    constructor (sound: KernelSound.Sound)
      ensures ticks == 0 && this.sound == sound && bus == sound.bus
    {
      ticks := 0;
      this.sound := sound;
      bus := sound.bus;
    }

    /** `timer_handler`: count the tick, then let the speaker end a beep. */
    method Handler()
      requires InU64(ticks)
      modifies this`ticks, sound, sound.bus
      ensures ticks == U64(old(ticks) + 1) && InU64(ticks)
      ensures sound.State() == KernelSound.AfterTick(old(sound.State()), ticks)
    {
      ticks := U64(ticks + 1);
      sound.Tick(ticks);
    }

    /** `set_pit`: program channel 0 to fire `frequency` times a second. */
    method SetPit(frequency: int)
      requires 0 < frequency
      modifies bus
      ensures bus.log == old(bus.log) + SetPitEvents(frequency)
    {
      var divisor := KernelSound.PIT_FREQUENCY / frequency;
      bus.Out(KernelSound.PIT_COMMAND, TIMER_MODE);
      bus.Out(PIT_CHANNEL0, KernelSound.LowByte(divisor));
      bus.Out(PIT_CHANNEL0, KernelSound.HighByte(divisor));
    }

    /** `timer::init`: install the handler at IRQ 0, then program the PIT. */
    method Init(pic: KernelPic.Pic, frequency: int)
      requires pic.routines.Length == 16 && 0 < frequency
      modifies pic.routines, bus
      ensures pic.routines[..] == old(pic.routines[..])[0 := Some(TIMER_HANDLER)]
      ensures bus.log == old(bus.log) + SetPitEvents(frequency)
    {
      pic.InstallHandler(0, TIMER_HANDLER);
      SetPit(frequency);
    }

    /** `timer::wait(ticks)`. The count advances under interrupts while the
        loop halts; `readings` are the values the loop test reads, one per
        test, and the result is how many times the loop halted. */
    method Wait(t: int, readings: seq<int>) returns (halts: nat)
      requires exists k :: 0 <= k < |readings| && !Waiting(Target(ticks, t), readings[k])
      ensures halts < |readings| && !Waiting(Target(ticks, t), readings[halts])
      ensures forall k :: 0 <= k < halts ==> Waiting(Target(ticks, t), readings[k])
    {
      var target := U32(ticks + t);
      halts := 0;
      while Waiting(target, readings[halts])
        invariant halts < |readings|
        invariant exists k :: halts <= k < |readings| && !Waiting(target, readings[k])
        invariant forall k :: 0 <= k < halts ==> Waiting(target, readings[k])
        decreases |readings| - halts
      {
        halts := halts + 1;
      }
    }

    /** `timer::wait_ms(ms)`. */
    method WaitMs(ms: int, readings: seq<int>) returns (halts: nat)
      requires InU32(ms)
      requires exists k :: 0 <= k < |readings| && !Waiting(Target(ticks, MsTicks(ms)), readings[k])
      ensures halts < |readings| && !Waiting(Target(ticks, MsTicks(ms)), readings[halts])
      ensures forall k :: 0 <= k < halts ==> Waiting(Target(ticks, MsTicks(ms)), readings[k])
    {
      halts := Wait(ms / 10, readings);
    }
  }

  /** A wait that reads the tick count as it really advances, from `start`
      by one per halt, halts exactly `ticks` times. */
  lemma WaitHaltsTicks(start: int, ticks: int, readings: seq<int>, halts: nat)
    requires 0 <= ticks < 0x8000_0000 && 0 <= start
    requires |readings| == ticks + 1 && forall k :: 0 <= k < |readings| ==> readings[k] == start + k
    requires halts < |readings| && !Waiting(Target(start, ticks), readings[halts])
    requires forall k :: 0 <= k < halts ==> Waiting(Target(start, ticks), readings[k])
    ensures halts == ticks
  {
    WaitEnds(start, ticks, readings[halts]);
  }
}
