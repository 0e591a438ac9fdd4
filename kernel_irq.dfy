/** The kernel's earlier IRQ layer (kernel/src/arch/x86_64/irq.cpp): its
    own 16-entry handler table, a remap with fixed initialisation words and
    no `io_wait`, the gate loop, and `irq_handle`, which also sends the
    slave controller its EOI. */
module KernelIrq {
  import opened Wrappers
  import opened Ports
  import KernelPic

  /** The writes of `irq_remap`, in order. */
  function RemapWrites(): (p: seq<(int, bv8)>)
    ensures |p| == 10
  {
    [ (0x20, 0x11), (0xA0, 0x11),
      (0x21, 0x20), (0xA1, 0x28),
      (0x21, 0x04), (0xA1, 0x02),
      (0x21, 0x01), (0xA1, 0x01),
      (0x21, 0x00), (0xA1, 0x00) ]
  }

  /** Port writes as bus events. */
  function Outs(ws: seq<(int, bv8)>): (es: seq<Event>)
    ensures |es| == |ws|
    ensures forall k :: 0 <= k < |ws| ==> es[k] == Out(ws[k].0, ws[k].1)
  {
    seq(|ws|, k requires 0 <= k < |ws| => Out(ws[k].0, ws[k].1))
  }

  /** The writes of `irq_remap` as bus events, written out. */
  function RemapEvents(): seq<Event>
  {
    [ Out(0x20, 0x11), Out(0xA0, 0x11),
      Out(0x21, 0x20), Out(0xA1, 0x28),
      Out(0x21, 0x04), Out(0xA1, 0x02),
      Out(0x21, 0x01), Out(0xA1, 0x01),
      Out(0x21, 0x00), Out(0xA1, 0x00) ]
  }

  lemma RemapOuts()
    ensures Outs(RemapWrites()) == RemapEvents()
  {
  }

  /** `irq_remap` sends the same initialisation words as `pic::remap` with
      ICW1 0x11 (edge triggered, ICW4 follows), ICW4 0x01 (8086 mode) and
      the slave on line 2, and then clears both masks instead of restoring
      them. */
  lemma RemapIsPicRemap()
    ensures RemapWrites() == KernelPic.Icws(0x11, 0x01, 2) + [(KernelPic.PIC1_DATA, 0), (KernelPic.PIC2_DATA, 0)]
  {
    assert KernelPic.BitOf(2) == 0x04;
  }

  /** The effects of `irq_handle` for vector `intNo` of 32..47: the handler
      if one is installed, the slave EOI for vectors 40 and up, the master
      EOI last. */
  function HandleEvents(routines: seq<Option<nat>>, intNo: int): seq<Event>
    requires |routines| == 16 && 32 <= intNo < 48
  {
    (if routines[intNo - 32].Some? then [Call(routines[intNo - 32].value, intNo)] else [])
    + (if intNo >= 40 then [Out(0xA0, 0x20)] else [])
    + [Out(0x20, 0x20)]
  }

  /** Every IRQ is acknowledged to the master exactly once, as the last
      effect; the slave is acknowledged, before the master, exactly for the
      lines it serves (vectors 40..47); the handler, if installed, runs first. */
  lemma HandleSpec(routines: seq<Option<nat>>, intNo: int)
    requires |routines| == 16 && 32 <= intNo < 48
    ensures var es := HandleEvents(routines, intNo);
      && es[|es| - 1] == Out(0x20, 0x20)
      && multiset(es)[Out(0x20, 0x20)] == 1
      && (Out(0xA0, 0x20) in es <==> intNo >= 40)
      && (intNo >= 40 ==> es[|es| - 2] == Out(0xA0, 0x20))
      && (es[0].Call? <==> routines[intNo - 32].Some?)
      && (routines[intNo - 32].Some? ==> es[0] == Call(routines[intNo - 32].value, intNo))
      && |es| == (if routines[intNo - 32].Some? then 1 else 0) + (if intNo >= 40 then 2 else 1)
  {
  }

  class Irq {
    const routines: array<Option<nat>>
    var gates: map<int, KernelPic.Gate>
    const bus: Bus

    constructor (bus: Bus)
      ensures routines.Length == 16 && routines[..] == seq(16, _ => None) && gates == map[]
      ensures this.bus == bus && fresh(routines)
    {
      routines := new Option<nat>[16](_ => None);
      gates := map[];
      this.bus := bus;
    }

    /** `irq_install_handler`: only entry `irq` changes. */
    method InstallHandler(irq: int, handler: nat)
      requires routines.Length == 16 && 0 <= irq < 16
      modifies routines
      ensures routines[..] == old(routines[..])[irq := Some(handler)]
    {
      routines[irq] := Some(handler);
    }

    /** `irq_uninstall_handler`: only entry `irq` is cleared. */
    method UninstallHandler(irq: int)
      requires routines.Length == 16 && 0 <= irq < 16
      modifies routines
      ensures routines[..] == old(routines[..])[irq := None]
    {
      routines[irq] := None;
    }

    /** `irq_remap`. */
    method Remap()
      modifies bus
      ensures bus.log == old(bus.log) + Outs(RemapWrites())
      ensures bus.Read(KernelPic.PIC1_DATA) == 0 && bus.Read(KernelPic.PIC2_DATA) == 0
    {
      ghost var base := bus.log;
      bus.Out(0x20, 0x11);
      bus.Out(0xA0, 0x11);
      bus.Out(0x21, 0x20);
      bus.Out(0xA1, 0x28);
      bus.Out(0x21, 0x04);
      bus.Out(0xA1, 0x02);
      bus.Out(0x21, 0x01);
      bus.Out(0xA1, 0x01);
      bus.Out(0x21, 0x00);
      bus.Out(0xA1, 0x00);
      assert bus.log == base + RemapEvents();
      RemapOuts();
    }

    /** `irq_init`: remap, leaving every line unmasked, then point vectors
        32..47 at IRQ stubs 0..15. */
    method Init()
      modifies this`gates, bus
      ensures gates == old(gates) + KernelPic.GatesBelow(16)
      ensures forall irq :: 0 <= irq < 16 ==> !KernelPic.Masked(bus.Read(KernelPic.PIC1_DATA), bus.Read(KernelPic.PIC2_DATA), irq)
    {
      Remap();
      InstallGates();
    }

    /** The gate loop of `irq_init`. */
    method InstallGates()
      modifies this`gates
      ensures gates == old(gates) + KernelPic.GatesBelow(16)
    {
      var i := 0;
      while i < 16
        invariant 0 <= i <= 16
        invariant gates == old(gates) + KernelPic.GatesBelow(i)
      {
        gates := gates[32 + i := KernelPic.Gate(i, KernelPic.GATE_FLAGS)];
        i := i + 1;
      }
    }

    /** `irq_handle` for vector `intNo`, which the IRQ stubs keep within 32..47. */
    method Handle(intNo: int)
      requires routines.Length == 16 && 32 <= intNo < 48
      modifies bus
      ensures bus.log == old(bus.log) + HandleEvents(routines[..], intNo)
    {
      var handler := routines[intNo - 32];
      if handler.Some? {
        bus.Note(Call(handler.value, intNo));
      }
      if intNo >= 40 {
        bus.Out(0xA0, 0x20);
      }
      bus.Out(0x20, 0x20);
    }
  }
}
