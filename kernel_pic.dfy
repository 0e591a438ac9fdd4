/** The Limine kernel's 8259 PIC driver (kernel/src/driver/pic.cpp): the
    16-entry IRQ handler table, `irq_handle` with its end-of-interrupt
    signals, the mask registers, the controller remap and `pic::init`.

    driver/pic.hpp is not part of this model: the port numbers and the EOI
    byte are the conventional 8259A ones, and the ICW1 and ICW4 bytes and
    `CASCADE_IRQ` are parameters. `idt_set_gate` lives in the kernel's IDT
    code, which is not part of this model either; its effect is recorded as
    the stub index and flags installed at each vector. */
module KernelPic {
  import opened Wrappers
  import opened Ports

  const PIC1_COMMAND: int := 0x20
  const PIC1_DATA: int := 0x21
  const PIC2_COMMAND: int := 0xA0
  const PIC2_DATA: int := 0xA1
  const PIC_EOI: bv8 := 0x20
  /** `io_wait` writes 0 to this unused port. */
  const WAIT_PORT: int := 0x80
  /** The APIC's spurious-interrupt vector. */
  const SPURIOUS: int := 255
  const GATE_FLAGS: bv8 := 0x8E

  /** What `idt_set_gate(vector, irq_stub_table[stub], flags)` installs. */
  datatype Gate = Gate(stub: nat, flags: bv8)

  // ---------------------------------------------------------- dispatch

  /** The handler identities called, in order. */
  function Calls(es: seq<Event>): seq<nat>
  {
    if es == [] then []
    else (if es[0].Call? then [es[0].handler] else []) + Calls(es[1..])
  }

  /** The handler call `irq_handle` makes for vector `intNo`: one exactly
      when it is an IRQ vector (32..47) with a handler installed. */
  function Dispatch(routines: seq<Option<nat>>, intNo: int): seq<Event>
    requires |routines| == 16
  {
    if 32 <= intNo < 48 && routines[intNo - 32].Some? then [Call(routines[intNo - 32].value, intNo)] else []
  }

  /** The end-of-interrupt signals: the master's, then the APIC's if it is on. */
  function Eoi(apicEnabled: bool): seq<Event>
  {
    [Out(PIC1_COMMAND, PIC_EOI)] + (if apicEnabled then [ApicEoi] else [])
  }

  /** The effects of `irq_handle` for vector `intNo`: nothing at all for the
      spurious vector; otherwise the handler call, then the EOIs. */
  function HandleEvents(routines: seq<Option<nat>>, intNo: int, apicEnabled: bool): seq<Event>
    requires |routines| == 16
  {
    if intNo == SPURIOUS then [] else Dispatch(routines, intNo) + Eoi(apicEnabled)
  }

  /** The handler runs, first, exactly when the vector is an IRQ vector with
      a handler installed; the spurious vector does nothing at all. */
  lemma HandleCalls(routines: seq<Option<nat>>, intNo: int, apicEnabled: bool)
    requires |routines| == 16
    ensures var es := HandleEvents(routines, intNo, apicEnabled);
      && (intNo == SPURIOUS ==> es == [])
      && Calls(es) == (if intNo != SPURIOUS && 32 <= intNo < 48 && routines[intNo - 32].Some?
                       then [routines[intNo - 32].value] else [])
      && (Calls(es) != [] ==> es[0] == Call(Calls(es)[0], intNo))
  {
    if intNo != SPURIOUS {
      var d, t := Dispatch(routines, intNo), Eoi(apicEnabled);
      CallsAppend(d, t);
      CallsAppend([Out(PIC1_COMMAND, PIC_EOI)], if apicEnabled then [ApicEoi] else []);
    }
  }

  /** Every vector but the spurious one gets exactly one master EOI, an
      APIC EOI exactly when the APIC is on, and never a slave EOI. */
  lemma HandleEois(routines: seq<Option<nat>>, intNo: int, apicEnabled: bool)
    requires |routines| == 16 && intNo != SPURIOUS
    ensures var es := HandleEvents(routines, intNo, apicEnabled);
      && multiset(es)[Out(PIC1_COMMAND, PIC_EOI)] == 1
      && (ApicEoi in es <==> apicEnabled)
      && forall k :: 0 <= k < |es| ==> !(es[k].Out? && es[k].port == PIC2_COMMAND)
  {
    var d, t := Dispatch(routines, intNo), Eoi(apicEnabled);
    assert multiset(d + t) == multiset(d) + multiset(t);
    assert multiset(d)[Out(PIC1_COMMAND, PIC_EOI)] == 0;
  }

  lemma {:induction false} CallsAppend(a: seq<Event>, b: seq<Event>)
    ensures Calls(a + b) == Calls(a) + Calls(b)
  {
    if a != [] {
      var h := if a[0].Call? then [a[0].handler] else [];
      assert (a + b)[0] == a[0];
      assert (a + b)[1..] == a[1..] + b;
      CallsAppend(a[1..], b);
      calc {
        Calls(a + b);
        h + Calls(a[1..] + b);
        h + (Calls(a[1..]) + Calls(b));
        (h + Calls(a[1..])) + Calls(b);
      }
    } else {
      assert a + b == b;
    }
  }

  // --------------------------------------------------------- mask bits

  /** `1 << k` as the byte operand of `&` and `|`: for k of 8 and more the
      set bit falls outside the byte. */
  function BitOf(k: int): (b: bv8)
    requires 0 <= k < 32
    ensures k >= 8 ==> b == 0
  {
    if k < 8 then (1 as bv8) << k else 0
  }

  /** Bit k of a byte. */
  predicate Bit(v: bv8, k: int)
    requires 0 <= k < 8
  {
    v & BitOf(k) != 0
  }

  /** `inb(port) & ~(1 << k)`. */
  function Cleared(v: bv8, k: int): bv8
    requires 0 <= k < 32
  {
    v & !BitOf(k)
  }

  /** `inb(port) | (1 << k)`. */
  function Raised(v: bv8, k: int): bv8
    requires 0 <= k < 32
  {
    v | BitOf(k)
  }

  /** Clearing or setting bit k changes bit k only. */
  lemma BitUpdates(v: bv8, k: int)
    requires 0 <= k < 8
    ensures !Bit(Cleared(v, k), k) && Bit(Raised(v, k), k)
    ensures forall j :: 0 <= j < 8 && j != k ==> Bit(Cleared(v, k), j) == Bit(v, j) && Bit(Raised(v, k), j) == Bit(v, j)
  {
    forall j | 0 <= j < 8 && j != k
      ensures Bit(Cleared(v, k), j) == Bit(v, j) && Bit(Raised(v, k), j) == Bit(v, j)
    {
      assert BitOf(j) & BitOf(k) == 0;
    }
  }

  /** Masking then unmasking a line leaves it unmasked, and gives the
      register back when the line was unmasked to begin with. */
  lemma MaskThenUnmask(v: bv8, k: int)
    requires 0 <= k < 8
    ensures Cleared(Raised(v, k), k) == Cleared(v, k)
    ensures !Bit(v, k) ==> Cleared(Raised(v, k), k) == v
  {
  }

  /** The data port holding the mask bit of line `irq`: the master for
      lines 0..7, the slave for the rest. */
  function MaskPort(irq: int): int
  {
    if irq < 8 then PIC1_DATA else PIC2_DATA
  }

  /** The bit index within that port: `irq`, or `irq - 8` on the slave. */
  function MaskIndex(irq: int): (k: int)
    requires 0 <= irq < 40
    ensures 0 <= k < 32
  {
    if irq < 8 then irq else irq - 8
  }

  /** Line `irq` of 0..15 is masked in the given master and slave registers. */
  predicate Masked(master: bv8, slave: bv8, irq: int)
    requires 0 <= irq < 16
  {
    Bit(if irq < 8 then master else slave, MaskIndex(irq))
  }

  // ------------------------------------------------------ remap program

  /** The initialisation words `remap` sends: ICW1 to both controllers,
      vector offsets 0x20 and 0x28, the cascade wiring, ICW4 to both. */
  function Icws(icw1: bv8, icw4: bv8, cascade: int): (p: seq<(int, bv8)>)
    requires 0 <= cascade < 8
    ensures |p| == 8
  {
    [ (PIC1_COMMAND, icw1), (PIC2_COMMAND, icw1),
      (PIC1_DATA, 0x20), (PIC2_DATA, 0x28),
      (PIC1_DATA, BitOf(cascade)), (PIC2_DATA, cascade as bv8),
      (PIC1_DATA, icw4), (PIC2_DATA, icw4) ]
  }

  /** Everything `remap` writes to the controllers, in order: the
      initialisation words, then the saved masks with IRQ0 unmasked on the
      master. */
  function Program(m1: bv8, m2: bv8, icw1: bv8, icw4: bv8, cascade: int): (p: seq<(int, bv8)>)
    requires 0 <= cascade < 8
    ensures |p| == 10
  {
    Icws(icw1, icw4, cascade) + [(PIC1_DATA, Cleared(m1, 0)), (PIC2_DATA, m2)]
  }

  /** Each controller write followed by the `io_wait` write. */
  function Waited(ws: seq<(int, bv8)>): (es: seq<Event>)
    ensures |es| == 2 * |ws|
    decreases |ws|
  {
    if ws == [] then []
    else Waited(ws[..|ws| - 1]) + [Out(ws[|ws| - 1].0, ws[|ws| - 1].1), Out(WAIT_PORT, 0)]
  }

  /** The writes with the `io_wait`s taken out. */
  function Unwaited(es: seq<Event>): seq<(int, bv8)>
    decreases |es|
  {
    if es == [] then []
    else
      var e := es[|es| - 1];
      Unwaited(es[..|es| - 1]) + (if e.Out? && e.port != WAIT_PORT then [(e.port, e.value)] else [])
  }

  /** Taking the `io_wait`s out of the log of `remap` gives back its
      controller program: every controller write is followed by exactly one
      wait and nothing else is written. */
  lemma {:induction false} WaitsInterleave(ws: seq<(int, bv8)>)
    requires forall k :: 0 <= k < |ws| ==> ws[k].0 != WAIT_PORT
    ensures Unwaited(Waited(ws)) == ws
    ensures forall k :: 0 <= k < |ws| ==> Waited(ws)[2 * k + 1] == Out(WAIT_PORT, 0)
    decreases |ws|
  {
    if ws != [] {
      var init, w := ws[..|ws| - 1], ws[|ws| - 1];
      WaitsInterleave(init);
      var es := Waited(ws);
      var pre := Waited(init) + [Out(w.0, w.1)];
      assert es[..|es| - 1] == pre;
      assert pre[..|pre| - 1] == Waited(init);
      assert init + [w] == ws;
    }
  }

  // ------------------------------------------------------- the driver

  /** The statics of pic.cpp: `irq_routines`, the IDT gates `pic::init`
      installs, and the ports. */
  class Pic {
    const routines: array<Option<nat>>
    var gates: map<int, Gate>
    const bus: Bus
    const icw1: bv8
    const icw4: bv8
    const cascade: int

    constructor (bus: Bus, icw1: bv8, icw4: bv8, cascade: int)
      requires 0 <= cascade < 8
      ensures routines.Length == 16 && routines[..] == seq(16, _ => None) && gates == map[]
      ensures this.bus == bus && this.icw1 == icw1 && this.icw4 == icw4 && this.cascade == cascade
      ensures fresh(routines)
    {
      routines := new Option<nat>[16](_ => None);
      gates := map[];
      this.bus := bus;
      this.icw1, this.icw4, this.cascade := icw1, icw4, cascade;
    }

    /** `irq_install_handler`: only entry `irq` changes. */
    method InstallHandler(irq: int, handler: nat)
      requires routines.Length == 16 && 0 <= irq < 16
      modifies routines
      ensures routines[..] == old(routines[..])[irq := Some(handler)]
    {
      routines[irq] := Some(handler);
    }

    /** `irq_uninstall_handler`: only entry `irq` is cleared. */
    method UninstallHandler(irq: int)
      requires routines.Length == 16 && 0 <= irq < 16
      modifies routines
      ensures routines[..] == old(routines[..])[irq := None]
    {
      routines[irq] := None;
    }

    /** `irq_handle` for vector `intNo`; `apicEnabled` is what
        `apic::is_enabled()` answers. */
    method Handle(intNo: int, apicEnabled: bool)
      requires routines.Length == 16
      modifies bus
      ensures bus.log == old(bus.log) + HandleEvents(routines[..], intNo, apicEnabled)
      ensures bus.latch == if intNo == SPURIOUS then old(bus.latch) else old(bus.latch)[PIC1_COMMAND := PIC_EOI]
    {
      if intNo == SPURIOUS {
        return;
      }
      if 32 <= intNo < 48 {
        var handler := routines[intNo - 32];
        if handler.Some? {
          bus.Note(Call(handler.value, intNo));
        }
      }
      bus.Out(PIC1_COMMAND, PIC_EOI);
      if apicEnabled {
        bus.Note(ApicEoi);
      }
    }

    /** `pic::unmask_irq`: clear the line's bit in its controller's mask. */
    method UnmaskIrq(irq: int)
      requires 0 <= irq < 40
      modifies bus
      ensures var port := MaskPort(irq);
        var v := Cleared(old(bus.Read(port)), MaskIndex(irq));
        bus.latch == old(bus.latch)[port := v] && bus.log == old(bus.log) + [Out(port, v)]
    {
      var port := MaskPort(irq);
      var k := MaskIndex(irq);
      bus.Out(port, Cleared(bus.Read(port), k));
    }

    /** `pic::mask_irq`: set the line's bit in its controller's mask. */
    method MaskIrq(irq: int)
      requires 0 <= irq < 40
      modifies bus
      ensures var port := MaskPort(irq);
        var v := Raised(old(bus.Read(port)), MaskIndex(irq));
        bus.latch == old(bus.latch)[port := v] && bus.log == old(bus.log) + [Out(port, v)]
    {
      var port := MaskPort(irq);
      var k := MaskIndex(irq);
      bus.Out(port, Raised(bus.Read(port), k));
    }

    /** One controller write and the `io_wait` after it. */
    method OutWait(port: int, value: bv8, ghost base: seq<Event>, ghost done: seq<(int, bv8)>)
      requires bus.log == base + Waited(done)
      modifies bus
      ensures bus.log == base + Waited(done + [(port, value)])
      ensures bus.latch == old(bus.latch)[port := value][WAIT_PORT := 0]
    {
      bus.Out(port, value);
      bus.Out(WAIT_PORT, 0);
      assert (done + [(port, value)])[..|done|] == done;
    }

    /** One word to the master and one to the slave, each followed by
        `io_wait`. */
    method OutWaitPair(port1: int, value1: bv8, port2: int, value2: bv8, ghost base: seq<Event>, ghost done: seq<(int, bv8)>)
      requires bus.log == base + Waited(done)
      modifies bus
      ensures bus.log == base + Waited(done + [(port1, value1), (port2, value2)])
    {
      OutWait(port1, value1, base, done);
      OutWait(port2, value2, base, done + [(port1, value1)]);
      assert done + [(port1, value1)] + [(port2, value2)] == done + [(port1, value1), (port2, value2)];
    }

    /** `pic::remap`: save both masks, reprogram both controllers to
        vectors 0x20 and 0x28, then restore the masks with IRQ0 unmasked. */
    method Remap()
      requires 0 <= cascade < 8
      modifies bus
      ensures bus.log == old(bus.log) + Waited(Program(old(bus.Read(PIC1_DATA)), old(bus.Read(PIC2_DATA)), icw1, icw4, cascade))
      ensures bus.Read(PIC1_DATA) == Cleared(old(bus.Read(PIC1_DATA)), 0)
      ensures bus.Read(PIC2_DATA) == old(bus.Read(PIC2_DATA))
    {
      ghost var base := bus.log;
      var mask1 := bus.Read(PIC1_DATA);
      var mask2 := bus.Read(PIC2_DATA);
      SendIcws(base);
      ghost var done := Icws(icw1, icw4, cascade);
      mask1 := Cleared(mask1, 0);
      OutWait(PIC1_DATA, mask1, base, done);
      OutWait(PIC2_DATA, mask2, base, done + [(PIC1_DATA, mask1)]);
      assert done + [(PIC1_DATA, mask1)] + [(PIC2_DATA, mask2)] == Program(old(bus.Read(PIC1_DATA)), mask2, icw1, icw4, cascade);
    }

    /** The initialisation-word part of `pic::remap`. */
    method SendIcws(ghost base: seq<Event>)
      requires 0 <= cascade < 8 && bus.log == base
      modifies bus
      ensures bus.log == base + Waited(Icws(icw1, icw4, cascade))
    {
      ghost var done: seq<(int, bv8)> := [];
      OutWaitPair(PIC1_COMMAND, icw1, PIC2_COMMAND, icw1, base, done);
      done := done + [(PIC1_COMMAND, icw1), (PIC2_COMMAND, icw1)];
      OutWaitPair(PIC1_DATA, 0x20, PIC2_DATA, 0x28, base, done);
      done := done + [(PIC1_DATA, 0x20), (PIC2_DATA, 0x28)];
      OutWaitPair(PIC1_DATA, BitOf(cascade), PIC2_DATA, cascade as bv8, base, done);
      done := done + [(PIC1_DATA, BitOf(cascade)), (PIC2_DATA, cascade as bv8)];
      OutWaitPair(PIC1_DATA, icw4, PIC2_DATA, icw4, base, done);
      done := done + [(PIC1_DATA, icw4), (PIC2_DATA, icw4)];
      assert done == Icws(icw1, icw4, cascade);
    }

    /** `pic::disable`: mask every line on both controllers. */
    method Disable()
      modifies bus
      ensures bus.log == old(bus.log) + [Out(PIC1_DATA, 0xFF), Out(PIC2_DATA, 0xFF)]
      ensures forall irq :: 0 <= irq < 16 ==> Masked(bus.Read(PIC1_DATA), bus.Read(PIC2_DATA), irq)
    {
      bus.Out(PIC1_DATA, 0xFF);
      bus.Out(PIC2_DATA, 0xFF);
    }

    /** `pic::init`: remap, unmask the keyboard line, then point vectors
        32..47 at IRQ stubs 0..15 and vector 255 at stub 15. */
    method Init()
      requires 0 <= cascade < 8
      modifies this`gates, bus
      ensures gates == old(gates) + IrqGates()
      ensures !Masked(bus.Read(PIC1_DATA), bus.Read(PIC2_DATA), 0) && !Masked(bus.Read(PIC1_DATA), bus.Read(PIC2_DATA), 1)
      ensures forall irq :: 2 <= irq < 16 ==>
        Masked(bus.Read(PIC1_DATA), bus.Read(PIC2_DATA), irq) == Masked(old(bus.Read(PIC1_DATA)), old(bus.Read(PIC2_DATA)), irq)
    {
      ghost var m1 := bus.Read(PIC1_DATA);
      Remap();
      UnmaskIrq(1);
      BitUpdates(m1, 0);
      BitUpdates(Cleared(m1, 0), 1);
      InstallGates();
    }

    /** The gate loop of `pic::init`. */
    method InstallGates()
      modifies this`gates
      ensures gates == old(gates) + IrqGates()
    {
      var i := 0;
      while i < 16
        invariant 0 <= i <= 16
        invariant gates == old(gates) + GatesBelow(i)
      {
        UnionUpdate(old(gates), GatesBelow(i), 32 + i, Gate(i, GATE_FLAGS));
        gates := gates[32 + i := Gate(i, GATE_FLAGS)];
        i := i + 1;
      }
      UnionUpdate(old(gates), GatesBelow(16), SPURIOUS, Gate(15, GATE_FLAGS));
      gates := gates[SPURIOUS := Gate(15, GATE_FLAGS)];
    }
  }

  /** Updating a union updates its right-hand side. */
  lemma UnionUpdate(m: map<int, Gate>, a: map<int, Gate>, k: int, x: Gate)
    ensures (m + a)[k := x] == m + a[k := x]
  {
  }

  /** The gates for IRQ stubs 0 .. n-1. */
  function GatesBelow(n: nat): (g: map<int, Gate>)
    ensures forall v :: v in g <==> 32 <= v < 32 + n
    ensures forall v :: v in g ==> g[v] == Gate(v - 32, GATE_FLAGS)
  {
    if n == 0 then map[] else GatesBelow(n - 1)[32 + n - 1 := Gate(n - 1, GATE_FLAGS)]
  }

  /** The gates `pic::init` installs: vectors 32..47 to stubs 0..15 and the
      spurious vector to stub 15, all as interrupt gates. */
  function IrqGates(): (g: map<int, Gate>)
    ensures forall v :: v in g <==> (32 <= v < 48 || v == SPURIOUS)
    ensures forall v :: 32 <= v < 48 ==> g[v] == Gate(v - 32, GATE_FLAGS)
    ensures g[SPURIOUS] == Gate(15, GATE_FLAGS)
  {
    GatesBelow(16)[SPURIOUS := Gate(15, GATE_FLAGS)]
  }
}
