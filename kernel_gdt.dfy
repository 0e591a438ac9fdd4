/** The Limine kernel's Global Descriptor Table (kernel/src/arch/x86_64/gdt.cpp):
    three packed 8-byte segment descriptors, laid out as in section 3.4.5 of
    the Intel 64 and IA-32 Architectures Software Developer's Manual,
    Volume 3A, and the `gp` pointer loaded from them. Loading the table
    (`gdt_flush`) is assembly and is not part of this model. */
module KernelGdt {
  import opened CInt

  /** The size of one packed `gdt_entry`: 2 + 2 + 1 + 1 + 1 + 1 bytes. */
  const ENTRY_SIZE: nat := 8
  /** The number of entries in `gdt`. */
  const ENTRIES: nat := 3

  /** A packed `gdt_entry`. */
  datatype Entry = Entry(limitLow: int, baseLow: int, baseMiddle: int, access: int, granularity: int, baseHigh: int)

  /** Every field fits its declared width. */
  predicate WellSized(e: Entry)
  {
    InU16(e.limitLow) && InU16(e.baseLow) && InU8(e.baseMiddle)
    && InU8(e.access) && InU8(e.granularity) && InU8(e.baseHigh)
  }

  /** The entry `gdt_set_gate(num, base, limit, access, gran)` leaves: the
      base split into bits 0-15, 16-23 and 24-31, the limit into bits 0-15
      and the low nibble of `granularity`, whose high nibble takes the high
      nibble of `gran`; `access` as it is. The two nibbles of the
      granularity byte come from disjoint masks, so their `|` is a sum. */
  function Gate(base: int, limit: int, access: int, gran: int): (e: Entry)
    requires InU64(base) && InU64(limit) && InU8(access) && InU8(gran)
    ensures WellSized(e)
  {
    Entry(limit % 0x1_0000, base % 0x1_0000, (base / 0x1_0000) % 0x100, access,
          (limit / 0x1_0000) % 0x10 + (gran / 0x10) * 0x10, (base / 0x100_0000) % 0x100)
  }

  /** The base address the processor reads back from the three base fields. */
  function Base(e: Entry): int
  {
    e.baseLow + 0x1_0000 * e.baseMiddle + 0x100_0000 * e.baseHigh
  }

  /** The 20-bit segment limit the processor reads back. */
  function Limit(e: Entry): int
  {
    e.limitLow + 0x1_0000 * (e.granularity % 0x10)
  }

  /** The flags nibble (G, D/B, L, AVL) the processor reads back. */
  function Flags(e: Entry): int
  {
    e.granularity / 0x10
  }

  /** The descriptor keeps the low 32 bits of the base, the low 20 bits of
      the limit, the high nibble of `gran` as its flags and `access`
      verbatim; everything else is dropped. */
  lemma GateRoundTrip(base: int, limit: int, access: int, gran: int)
    requires InU64(base) && InU64(limit) && InU8(access) && InU8(gran)
    ensures Base(Gate(base, limit, access, gran)) == base % TWO32
    ensures Limit(Gate(base, limit, access, gran)) == limit % 0x10_0000
    ensures Flags(Gate(base, limit, access, gran)) == gran / 0x10
    ensures Gate(base, limit, access, gran).access == access
  {
    var e := Gate(base, limit, access, gran);
    SplitBase(base);
    SplitLimit(limit);
    assert e.granularity % 0x10 == (limit / 0x1_0000) % 0x10;
  }

  lemma SplitBase(base: int)
    requires 0 <= base
    ensures base % 0x1_0000 + 0x1_0000 * ((base / 0x1_0000) % 0x100) + 0x100_0000 * ((base / 0x100_0000) % 0x100) == base % TWO32
  {
    var q := base / 0x1_0000;
    assert base == 0x1_0000 * q + base % 0x1_0000;
    assert q / 0x100 == base / 0x100_0000;
    assert q == 0x100 * (q / 0x100) + q % 0x100;
    var h := base / 0x100_0000;
    assert h == 0x100 * (h / 0x100) + h % 0x100;
    assert base / TWO32 == h / 0x100;
    assert base == TWO32 * (h / 0x100) + (base % 0x1_0000 + 0x1_0000 * (q % 0x100) + 0x100_0000 * (h % 0x100));
  }

  lemma SplitLimit(limit: int)
    requires 0 <= limit
    ensures limit % 0x1_0000 + 0x1_0000 * ((limit / 0x1_0000) % 0x10) == limit % 0x10_0000
  {
    var q := limit / 0x1_0000;
    assert limit == 0x1_0000 * q + limit % 0x1_0000;
    assert q == 0x10 * (q / 0x10) + q % 0x10;
    assert limit / 0x10_0000 == q / 0x10;
    assert limit == 0x10_0000 * (q / 0x10) + (limit % 0x1_0000 + 0x1_0000 * (q % 0x10));
  }

  /** The three descriptors `gdt_init` writes: the null descriptor, a
      64-bit code segment and a data segment. */
  function InitialEntries(): seq<Entry>
  {
    [Gate(0, 0, 0, 0), Gate(0, 0, 0x9A, 0xA0), Gate(0, 0, 0x92, 0x00)]
  }

  /** Entry 0 of the table is the null descriptor: all zero. */
  lemma InitialNullEntry()
    ensures |InitialEntries()| == ENTRIES && InitialEntries()[0] == Entry(0, 0, 0, 0, 0, 0)
  {
    assert InitialEntries()[0] == Gate(0, 0, 0, 0);
    ZeroGate(0);
  }

  /** Entry 1 is a 64-bit code segment: base and limit zero, access byte
      0x9A (present, ring 0, execute/read) and flags 0xA (G and L set). */
  lemma InitialCodeEntry()
    ensures |InitialEntries()| == ENTRIES && InitialEntries()[1] == Entry(0, 0, 0, 0x9A, 0xA0, 0)
    ensures Flags(InitialEntries()[1]) == 0xA
  {
  }

  /** Entry 2 is a data segment: base and limit zero, access byte 0x92
      (present, ring 0, read/write) and no flags. */
  lemma InitialDataEntry()
    ensures |InitialEntries()| == ENTRIES && InitialEntries()[2] == Entry(0, 0, 0, 0x92, 0, 0)
    ensures Flags(InitialEntries()[2]) == 0
  {
    assert InitialEntries()[2] == Gate(0, 0, 0x92, 0);
    ZeroGate(0x92);
  }

  /** A gate with base, limit and flags zero keeps only its access byte. */
  lemma ZeroGate(access: int)
    requires InU8(access)
    ensures Gate(0, 0, access, 0) == Entry(0, 0, 0, access, 0, 0)
  {
  }

  /** The statics `gdt` and `gp`. `tableAddress` is where `gdt` lies. */
  class Gdt {
    const entries: array<Entry>
    var limit: int
    var base: int
    const tableAddress: int

    constructor (tableAddress: int)
      ensures entries.Length == ENTRIES && fresh(entries) && this.tableAddress == tableAddress
    {
      entries := new Entry[ENTRIES](_ => Entry(0, 0, 0, 0, 0, 0));
      this.tableAddress := tableAddress;
    }

    /** `gdt_set_gate(num, base, limit, access, gran)`: only entry `num`
        changes. */
    method SetGate(num: int, base: int, limit: int, access: int, gran: int)
      requires 0 <= num < entries.Length
      requires InU64(base) && InU64(limit) && InU8(access) && InU8(gran)
      modifies entries
      ensures entries[..] == old(entries[..])[num := Gate(base, limit, access, gran)]
    {
      var e := entries[num];
      e := e.(baseLow := base % 0x1_0000, baseMiddle := (base / 0x1_0000) % 0x100, baseHigh := (base / 0x100_0000) % 0x100);
      e := e.(limitLow := limit % 0x1_0000, granularity := (limit / 0x1_0000) % 0x10);
      e := e.(granularity := e.granularity + (gran / 0x10) * 0x10, access := access);
      entries[num] := e;
    }

    /** `gdt_init` up to `gdt_flush`: the pointer covers the three entries,
        whose contents are InitialEntries. */
    method Init()
      requires entries.Length == ENTRIES
      modifies this, entries
      ensures limit == ENTRY_SIZE * ENTRIES - 1 == 23 && base == tableAddress
      ensures entries[..] == InitialEntries()
    {
      limit := ENTRY_SIZE * ENTRIES - 1;
      base := tableAddress;
      SetGate(0, 0, 0, 0, 0);
      SetGate(1, 0, 0, 0x9A, 0xA0);
      SetGate(2, 0, 0, 0x92, 0x00);
    }
  }
}
