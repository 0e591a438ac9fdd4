/** The Interrupt Descriptor Table (src/arch/x86_64/idt.cpp, with the entry
    layout of kernel/include/kernel/idt.hpp): 256 packed 16-byte gate
    descriptors, laid out as in section 6.14.1 of the Intel 64 and IA-32
    Architectures Software Developer's Manual, Volume 3A, and the `idtr`
    pointer loaded from them. Installing the exception handlers
    (`isrs_init`) and loading the table (`idt_load`) are not part of this
    model. */
module SrcIdt {
  import opened CInt

  /** The size of one packed `idt_entry_t`: 2 + 2 + 1 + 1 + 2 + 4 + 4 bytes. */
  const ENTRY_SIZE: nat := 16
  /** The number of entries in `idt`. */
  const ENTRIES: nat := 256
  /** The kernel code segment selector every gate names. */
  const KERNEL_CS: int := 0x08

  /** A packed `idt_entry_t`. */
  datatype Entry = Entry(isrLow: int, kernelCs: int, ist: int, attributes: int, isrHigh: int, isrHigh2: int, reserved: int)

  /** The all-zero entry `idt_init` clears the table to. */
  const Empty: Entry := Entry(0, 0, 0, 0, 0, 0, 0)

  /** Every field fits its declared width. */
  predicate WellSized(e: Entry)
  {
    InU16(e.isrLow) && InU16(e.kernelCs) && InU8(e.ist) && InU8(e.attributes)
    && InU16(e.isrHigh) && InU32(e.isrHigh2) && InU32(e.reserved)
  }

  /** The entry `idt_set_gate(num, base, flags)` leaves: the handler address
      split into bits 0-15, 16-31 and 32-63, the kernel code selector, no
      interrupt stack, `flags` as the type and attributes byte. */
  function Gate(base: int, flags: int): (e: Entry)
    requires InU64(base) && InU8(flags)
    ensures WellSized(e)
  {
    Entry(base % 0x1_0000, KERNEL_CS, 0, flags, (base / 0x1_0000) % 0x1_0000, (base / TWO32) % TWO32, 0)
  }

  /** The handler address the processor reads back from the three offset
      fields. */
  function Handler(e: Entry): int
  {
    e.isrLow + 0x1_0000 * e.isrHigh + TWO32 * e.isrHigh2
  }

  /** A gate sends the interrupt to exactly the 64-bit address it was given,
      through the kernel code segment with no interrupt stack, with the given
      attributes and the reserved field zero. */
  lemma GateRoundTrip(base: int, flags: int)
    requires InU64(base) && InU8(flags)
    ensures Handler(Gate(base, flags)) == base
    ensures Gate(base, flags).kernelCs == KERNEL_CS && Gate(base, flags).ist == 0
    ensures Gate(base, flags).attributes == flags && Gate(base, flags).reserved == 0
  {
    var q := base / 0x1_0000;
    assert base == 0x1_0000 * q + base % 0x1_0000;
    assert q / 0x1_0000 == base / TWO32;
    assert q == 0x1_0000 * (q / 0x1_0000) + q % 0x1_0000;
    assert base / TWO32 < TWO32;
  }

  /** Distinct handler addresses give distinct gates. */
  lemma GateInjective(base1: int, base2: int, flags: int)
    requires InU64(base1) && InU64(base2) && InU8(flags)
    ensures Gate(base1, flags) == Gate(base2, flags) <==> base1 == base2
  {
    GateRoundTrip(base1, flags);
    GateRoundTrip(base2, flags);
  }

  /** The statics `idt` and `idtr`. `tableAddress` is where `idt` lies. */
  class Idt {
    const entries: array<Entry>
    var limit: int
    var base: int
    const tableAddress: int

    constructor (tableAddress: int)
      ensures entries.Length == ENTRIES && fresh(entries) && this.tableAddress == tableAddress
    {
      entries := new Entry[ENTRIES](_ => Empty);
      this.tableAddress := tableAddress;
    }

    /** `idt_set_gate(num, base, flags)`: only entry `num` changes. */
    method SetGate(num: int, base: int, flags: int)
      requires InU8(num) && entries.Length == ENTRIES
      requires InU64(base) && InU8(flags)
      modifies entries
      ensures entries[..] == old(entries[..])[num := Gate(base, flags)]
    {
      var descriptor := entries[num];
      descriptor := descriptor.(isrLow := base % 0x1_0000, kernelCs := KERNEL_CS, ist := 0);
      descriptor := descriptor.(isrHigh := (base / 0x1_0000) % 0x1_0000, isrHigh2 := (base / TWO32) % TWO32);
      descriptor := descriptor.(attributes := flags, reserved := 0);
      entries[num] := descriptor;
    }

    /** `idt_init` up to `isrs_init`: the pointer covers the 256 entries,
        which are cleared to zero. */
    method Init()
      requires entries.Length == ENTRIES
      modifies this, entries
      ensures limit == ENTRY_SIZE * ENTRIES - 1 == 4095 && InU16(limit) && base == tableAddress
      ensures forall k :: 0 <= k < entries.Length ==> entries[k] == Empty
    {
      limit := ENTRY_SIZE * ENTRIES - 1;
      base := tableAddress;
      forall k | 0 <= k < entries.Length {
        entries[k] := Empty;
      }
    }
  }
}
