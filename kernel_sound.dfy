/** The PC speaker driver (kernel/src/driver/sound.cpp): PIT channel 2 drives
    the speaker at a frequency, port 0x61 gates it, and a beep started by
    `beep` is switched off by `snd_tick` ten timer ticks later. */
module KernelSound {
  import opened CInt
  import opened Ports
  import opened Bytes

  /** PIT_FREQUENCY (driver/timer.hpp:5), the PIT's input clock in Hz. */
  const PIT_FREQUENCY: int := 1193182
  const PIT_COMMAND: int := 0x43
  const PIT_CHANNEL2: int := 0x42
  /** The keyboard controller's port B: bits 0 and 1 gate the speaker. */
  const SPEAKER_PORT: int := 0x61
  /** Channel 2, low byte then high byte, square wave. */
  const SPEAKER_MODE: bv8 := 0xB6
  const BEEP_FREQUENCY: int := 300
  const BEEP_TICKS: int := 10

  /** `n & 0xFF` as the byte written. */
  function LowByte(n: nat): bv8
  {
    (n % 256) as bv8
  }

  /** `(n >> 8) & 0xFF`, or equally `(uint8_t)(n >> 8)`. */
  function HighByte(n: nat): bv8
  {
    ((n / 256) % 256) as bv8
  }

  /** The two bytes sent to a PIT channel recombine to the divisor's low
      16 bits: the divisor itself when it fits, which it does for every
      frequency of 19 Hz and up. */
  lemma DivisorBytes(n: nat)
    ensures LowByte(n) as int + 256 * HighByte(n) as int == n % 0x1_0000
    ensures n < 0x1_0000 ==> LowByte(n) as int + 256 * HighByte(n) as int == n
  {
    var q, r := n / 256, n % 256;
    var q2, r2 := q / 256, q % 256;
    ByteRoundTrip(r);
    ByteRoundTrip(r2);
    assert n == 0x1_0000 * q2 + (256 * r2 + r) by {
      assert n == 256 * q + r;
      assert q == 256 * q2 + r2;
    }
    ModOfSplit(n, q2, 256 * r2 + r);
  }

  /** The remainder is the unique part below the divisor. */
  lemma ModOfSplit(n: int, q: int, r: int)
    requires 0 <= r < 0x1_0000 && n == 0x1_0000 * q + r
    ensures n % 0x1_0000 == r
  {
  }

  /** The PIT divisor for `frequency`: C's unsigned division. */
  function Divisor(frequency: int): (d: nat)
    requires 0 < frequency
    ensures frequency >= 19 ==> d < 0x1_0000
  {
    PIT_FREQUENCY / frequency
  }

  /** What `snd_play` writes to the speaker port when it reads `b` there. */
  function SpeakerOn(b: bv8): bv8 { b | 3 }

  /** What `snd_stop` writes to the speaker port when it reads `b` there. */
  function SpeakerOff(b: bv8): bv8 { b & 0xFC }

  /** Switching the speaker on sets both gate bits, off clears them, and
      neither touches the port's other six bits; switching on an already
      open gate writes back what was read. */
  lemma SpeakerGate(b: bv8)
    ensures SpeakerOn(b) & 3 == 3 && SpeakerOn(b) & 0xFC == b & 0xFC
    ensures SpeakerOff(b) & 3 == 0 && SpeakerOff(b) & 0xFC == b & 0xFC
    ensures b & 3 == 3 ==> SpeakerOn(b) == b
  {
  }

  /** The writes of `snd_play(frequency)` when port 0x61 reads `b`. */
  function PlayEvents(frequency: int, b: bv8): seq<Event>
    requires 0 < frequency
  {
    var d := Divisor(frequency);
    [Out(PIT_COMMAND, SPEAKER_MODE), Out(PIT_CHANNEL2, LowByte(d)), Out(PIT_CHANNEL2, HighByte(d))]
    + (if b & 3 != 3 then [Out(SPEAKER_PORT, SpeakerOn(b))] else [])
  }

  /** The statics `beep_active` and `beep_end_tick`. */
  datatype Beeper = Beeper(active: bool, endTick: int)

  /** `beep` at tick `now`: a running beep is left alone; otherwise the beep
      starts and ends 10 ticks on, the uint64 sum stored in an `int`. */
  function AfterBeep(b: Beeper, now: int): Beeper
  {
    if b.active then b else Beeper(true, I32(U64(now + BEEP_TICKS)))
  }

  /** `snd_tick`'s test: the `int` end tick is converted to uint64 for the
      comparison with the tick count. */
  predicate Expired(b: Beeper, now: int)
  {
    b.active && now >= U64(b.endTick)
  }

  /** `snd_tick` at tick `now`. */
  function AfterTick(b: Beeper, now: int): Beeper
  {
    if Expired(b, now) then Beeper(false, b.endTick) else b
  }

  /** A beep started at tick `start` sounds for exactly 10 ticks, as long
      as its end tick fits in an `int`. */
  lemma BeepLastsTenTicks(b: Beeper, start: int, now: int)
    requires !b.active && 0 <= start && start + BEEP_TICKS < 0x8000_0000
    ensures AfterTick(AfterBeep(b, start), now).active <==> now < start + BEEP_TICKS
  {
  }

  /** A beep whose end tick does not fit in an `int` (started at tick
      2^31 - 10 or later, about 248 days after boot at 100 Hz) gets a
      negative end tick, which converts to a uint64 beyond any tick count
      reached in practice: the speaker stays on. */
  lemma BeepOutlivesWrap(b: Beeper, start: int, now: int)
    requires !b.active && 0x8000_0000 - BEEP_TICKS <= start < 0x8000_0000 - BEEP_TICKS + 0x8000_0000
    requires 0 <= now < TWO64 - TWO32
    ensures AfterTick(AfterBeep(b, start), now).active
  {
    var e := start + BEEP_TICKS;
    assert I32(U64(e)) == e - TWO32;
    assert U64(e - TWO32) == TWO64 - TWO32 + e;
  }

  /** A second beep while one sounds changes nothing, and a tick changes
      nothing while no beep sounds. */
  lemma BeepIdempotent(b: Beeper, now: int, later: int)
    ensures AfterBeep(AfterBeep(b, now), later) == AfterBeep(b, now)
    ensures !b.active ==> AfterTick(b, later) == b
  {
  }

  class Sound {
    var active: bool
    var endTick: int
    const bus: Bus

    constructor (bus: Bus)
      ensures State() == Beeper(false, 0) && this.bus == bus
    {
      active, endTick := false, 0;
      this.bus := bus;
    }

    function State(): Beeper
      reads this
    {
      Beeper(active, endTick)
    }

    /** `snd_play`: program channel 2 and open the speaker gate. */
    method Play(frequency: int)
      requires 0 < frequency
      modifies bus
      ensures bus.log == old(bus.log) + PlayEvents(frequency, old(bus.Read(SPEAKER_PORT)))
      ensures bus.Read(SPEAKER_PORT) == SpeakerOn(old(bus.Read(SPEAKER_PORT)))
    {
      ghost var log0 := bus.log;
      var d := PIT_FREQUENCY / frequency;
      bus.Out(PIT_COMMAND, SPEAKER_MODE);
      bus.Out(PIT_CHANNEL2, LowByte(d));
      bus.Out(PIT_CHANNEL2, HighByte(d));
      ghost var program := [Out(PIT_COMMAND, SPEAKER_MODE), Out(PIT_CHANNEL2, LowByte(d)), Out(PIT_CHANNEL2, HighByte(d))];
      assert bus.log == log0 + program;
      var tmp := bus.Read(SPEAKER_PORT);
      assert tmp == old(bus.Read(SPEAKER_PORT));
      if tmp & 3 != 3 {
        bus.Out(SPEAKER_PORT, SpeakerOn(tmp));
        assert bus.log == log0 + (program + [Out(SPEAKER_PORT, SpeakerOn(tmp))]);
      } else {
        assert program + [] == program;
      }
    }

    /** `snd_stop`: close the speaker gate. */
    method Stop()
      modifies bus
      ensures bus.log == old(bus.log) + [Out(SPEAKER_PORT, SpeakerOff(old(bus.Read(SPEAKER_PORT))))]
      ensures bus.Read(SPEAKER_PORT) == SpeakerOff(old(bus.Read(SPEAKER_PORT)))
    {
      var tmp := SpeakerOff(bus.Read(SPEAKER_PORT));
      bus.Out(SPEAKER_PORT, tmp);
    }

    /** `beep` at tick `now`. */
    method Beep(now: int)
      modifies this, bus
      ensures State() == AfterBeep(old(State()), now)
      ensures bus.log == old(bus.log) + (if old(active) then [] else PlayEvents(BEEP_FREQUENCY, old(bus.Read(SPEAKER_PORT))))
    {
      if !active {
        Play(BEEP_FREQUENCY);
        active := true;
        endTick := I32(U64(now + BEEP_TICKS));
      }
    }

    /** `snd_tick` at tick `now`. */
    method Tick(now: int)
      modifies this, bus
      ensures State() == AfterTick(old(State()), now)
      ensures bus.log == old(bus.log) + (if Expired(old(State()), now) then [Out(SPEAKER_PORT, SpeakerOff(old(bus.Read(SPEAKER_PORT))))] else [])
    {
      if active && now >= U64(endTick) {
        Stop();
        active := false;
      }
    }
  }
}
