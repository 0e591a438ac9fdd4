/** The kernel services the uACPI library calls (kernel/src/kernel/kernel_api.cpp):
    finding the RSDP and mapping physical memory through the bootloader's
    higher-half direct map (HHDM). The bootloader's answers are parameters:
    the RSDP response's address and the HHDM response's offset, each absent
    when the bootloader gave no response. */
module KernelApi {
  import opened CInt
  import opened Wrappers

  /** The uACPI status codes these services return. */
  datatype Status = Ok | InvalidArgument | NotFound

  /** The status `uacpi_kernel_get_rsdp` returns and the address it stores
      through its out-pointer, if it stores one. */
  datatype RsdpResult = RsdpResult(status: Status, stored: Option<int>)

  /** The bytes in a page. */
  const PAGE: nat := 0x1000

  /** `uacpi_kernel_get_rsdp(out)`: a null out-pointer is an invalid
      argument, a missing RSDP response is not found; otherwise the RSDP
      address is stored, less the HHDM offset when there is one and the
      address is not below it. */
  function GetRsdp(outIsNull: bool, rsdp: Option<int>, hhdm: Option<int>): RsdpResult
  {
    if outIsNull then RsdpResult(InvalidArgument, None)
    else if rsdp.None? then RsdpResult(NotFound, None)
    else
      var limineAddr := rsdp.value;
      var phys := if hhdm.Some? && limineAddr >= hhdm.value then limineAddr - hhdm.value else limineAddr;
      RsdpResult(Ok, Some(phys))
  }

  /** The error cases store nothing, and success stores a 64-bit value:
      the physical address behind a higher-half RSDP address, and the
      address as given otherwise. */
  lemma GetRsdpSpec(outIsNull: bool, rsdp: Option<int>, hhdm: Option<int>)
    requires rsdp.Some? ==> InU64(rsdp.value)
    requires hhdm.Some? ==> InU64(hhdm.value)
    ensures var r := GetRsdp(outIsNull, rsdp, hhdm);
      && (r.status == InvalidArgument <==> outIsNull)
      && (r.status == NotFound <==> !outIsNull && rsdp.None?)
      && (r.status == Ok <==> r.stored.Some?)
      && (r.status == Ok ==> InU64(r.stored.value) && r.stored.value <= rsdp.value)
      && (r.status == Ok && hhdm.Some? && rsdp.value >= hhdm.value ==> r.stored.value + hhdm.value == rsdp.value)
      && (r.status == Ok && (hhdm.None? || rsdp.value < hhdm.value) ==> r.stored.value == rsdp.value)
  {
  }

  /** Clearing the low twelve bits of a 64-bit value rounds it down to a
      page boundary. */
  lemma PageMask(x: bv64)
    ensures x & !0xFFF == x - x % 0x1000
  {
  }

  /** `uacpi_kernel_map(addr, len)`: null without an HHDM response;
      otherwise the address is made physical (less the offset, when not
      below it), split into its page and the offset within the page, and
      the page is placed in the direct map. The additions are on 64-bit
      `uintptr_t`. `len` plays no part. */
  function Map(addr: int, len: int, hhdm: Option<int>): Option<int>
  {
    if hhdm.None? then None
    else
      var phys := if addr >= hhdm.value then addr - hhdm.value else addr;
      var page := phys - phys % PAGE;
      var offset := phys - page;
      var virtPage := U64(hhdm.value + page);
      Some(U64(virtPage + offset))
  }

  /** The page and the offset within it recombine exactly, so the mapping
      is the HHDM offset plus the physical address, modulo 2^64: a physical
      address below the offset maps into the direct map, and an address
      already at or above the offset maps to itself. */
  lemma MapSpec(addr: int, len: int, hhdm: Option<int>)
    requires InU64(addr) && (hhdm.Some? ==> InU64(hhdm.value))
    ensures hhdm.None? <==> Map(addr, len, hhdm).None?
    ensures hhdm.Some? && addr < hhdm.value ==> Map(addr, len, hhdm) == Some(U64(hhdm.value + addr))
    ensures hhdm.Some? && addr >= hhdm.value ==> Map(addr, len, hhdm) == Some(addr)
  {
    if hhdm.Some? {
      var h := hhdm.value;
      var phys := if addr >= h then addr - h else addr;
      var page := phys - phys % PAGE;
      U64Sum(h + page, phys - page);
    }
  }

  /** Wrapping the first term of a sum changes nothing modulo 2^64. */
  lemma U64Sum(a: int, b: int)
    requires 0 <= a && 0 <= b
    ensures U64(U64(a) + b) == U64(a + b)
  {
    var q := a / TWO64;
    assert a == q * TWO64 + U64(a);
    assert U64(a) + b == (a + b) - q * TWO64;
  }

  /** A mapped address maps to itself again, and the stored RSDP address
      maps back to where the bootloader put the table, as long as that
      physical address lies below the HHDM offset (`map` takes any address
      at or above the offset to be in the direct map already). */
  lemma MapRoundTrips(rsdp: int, hhdm: int, len: int)
    requires InU64(rsdp) && InU64(hhdm)
    ensures var r := GetRsdp(false, Some(rsdp), Some(hhdm));
      rsdp >= hhdm && rsdp - hhdm < hhdm ==> Map(r.stored.value, len, Some(hhdm)) == Some(rsdp)
    ensures var m := Map(rsdp, len, Some(hhdm)).value;
      hhdm + rsdp < TWO64 ==> Map(m, len, Some(hhdm)) == Some(m)
  {
    MapSpec(rsdp, len, Some(hhdm));
    if rsdp >= hhdm {
      MapSpec(rsdp - hhdm, len, Some(hhdm));
    }
    var m := Map(rsdp, len, Some(hhdm)).value;
    if hhdm + rsdp < TWO64 {
      assert m == if rsdp >= hhdm then rsdp else hhdm + rsdp;
      MapSpec(m, len, Some(hhdm));
    }
  }

  /** `uacpi_kernel_unmap(addr, len)`: nothing to undo in the direct map. */
  method Unmap(addr: int, len: int)
  {
  }
}
