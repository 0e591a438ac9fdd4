/** The Limine kernel's PCI driver (kernel/src/driver/pci.cpp): configuration
    reads through Configuration Mechanism #1 of section 3.2.2.3.2 of the PCI
    Local Bus Specification, revision 3.0, the name tables and their
    lookups, and the bus scan that records every device it finds.

    The pair `outl(0xCF8, address)`, `inl(0xCFC)` is one read of the
    configuration space, which is a parameter: a function from the 32-bit
    address written to 0xCF8 to the dword read back from 0xCFC. */
module KernelPci {
  import opened Wrappers

  /** What the host bridge answers to each configuration address. */
  type ConfigSpace = bv32 -> bv32

  /** The name tables: each entry a key and a name. */
  const VENDORS: seq<(int, string)> := [(0x8086, "Intel"), (0x10DE, "NVIDIA"), (0x1002, "AMD")]
  const DEVICES: seq<((int, int), string)> := [
    ((0x8086, 0x100E), "Intel PRO/1000 (e1000)"),
    ((0x8086, 0x1237), "Intel PIIX3 ISA"),
    ((0x10DE, 0x1B80), "NVIDIA GeForce GTX 1080"),
    ((0x1002, 0x67DF), "AMD Radeon RX 580")]
  const CLASSES: seq<(int, string)> := [
    (0x00, "Unclassified"), (0x01, "Mass Storage Controller"), (0x02, "Network Controller"),
    (0x03, "Display Controller"), (0x04, "Multimedia Controller"), (0x05, "Memory Controller"),
    (0x06, "Bridge"), (0x07, "Simple Communication Controller"), (0x08, "Base System Peripheral"),
    (0x09, "Input Device Controller"), (0x0A, "Docking Station"), (0x0B, "Processor"),
    (0x0C, "Serial Bus Controller"), (0x0D, "Wireless Controller"), (0x0E, "Intelligent Controller")]

  /** The name the scan records when a lookup finds nothing. */
  const UNKNOWN: string := "Unknown"
  /** The size of `pci_devices`. */
  const MAX_DEVICES: nat := 256

  /** The configuration address of `read_conf32`: the enable bit 31, the
      bus in bits 16-23, the slot from bit 11, the function from bit 8 and
      the register offset with its low two bits cleared. */
  function ConfigAddress(bus: bv8, slot: bv8, func: bv8, offset: bv8): bv32
  {
    ((bus as bv32) << 16) | ((slot as bv32) << 11) | ((func as bv32) << 8) | ((offset as bv32) & 0xFC) | 0x8000_0000
  }

  /** For a slot below 32 and a function below 8 the fields do not overlap:
      each reads back from its own bits, bits 24-30 are clear, and the enable
      bit is set. */
  lemma AddressFields(bus: bv8, slot: bv8, func: bv8, offset: bv8)
    requires slot < 32 && func < 8
    ensures (ConfigAddress(bus, slot, func, offset) >> 16) & 0xFF == bus as bv32
    ensures (ConfigAddress(bus, slot, func, offset) >> 11) & 0x1F == slot as bv32
    ensures (ConfigAddress(bus, slot, func, offset) >> 8) & 0x7 == func as bv32
    ensures ConfigAddress(bus, slot, func, offset) & 0xFF == (offset & 0xFC) as bv32
    ensures ConfigAddress(bus, slot, func, offset) & 0x7F00_0000 == 0
    ensures ConfigAddress(bus, slot, func, offset) & 0x8000_0000 != 0
  {
  }

  /** So two reads address the same register exactly when they name the
      same bus, slot, function and dword. */
  lemma AddressInjective(b1: bv8, s1: bv8, f1: bv8, o1: bv8, b2: bv8, s2: bv8, f2: bv8, o2: bv8)
    requires s1 < 32 && f1 < 8 && s2 < 32 && f2 < 8
    ensures ConfigAddress(b1, s1, f1, o1) == ConfigAddress(b2, s2, f2, o2)
      <==> b1 == b2 && s1 == s2 && f1 == f2 && o1 & 0xFC == o2 & 0xFC
  {
    if ConfigAddress(b1, s1, f1, o1) == ConfigAddress(b2, s2, f2, o2) {
      SameAddress(b1, s1, f1, o1, b2, s2, f2, o2);
    } else {
      OffsetDword(o1, o2);
    }
  }

  lemma SameAddress(b1: bv8, s1: bv8, f1: bv8, o1: bv8, b2: bv8, s2: bv8, f2: bv8, o2: bv8)
    requires s1 < 32 && f1 < 8 && s2 < 32 && f2 < 8
    requires ConfigAddress(b1, s1, f1, o1) == ConfigAddress(b2, s2, f2, o2)
    ensures b1 == b2 && s1 == s2 && f1 == f2 && o1 & 0xFC == o2 & 0xFC
  {
    AddressFields(b1, s1, f1, o1);
    AddressFields(b2, s2, f2, o2);
    OffsetDword(o1, o2);
  }

  /** Only the dword part of the offset reaches the address. */
  lemma OffsetDword(o1: bv8, o2: bv8)
    ensures (o1 as bv32) & 0xFC == (o2 as bv32) & 0xFC <==> o1 & 0xFC == o2 & 0xFC
  {
  }

  /** A slot of 32 or more spills into the bus field: slot 32 of bus 0 is
      slot 0 of bus 1. */
  lemma WideSlotAliases()
    ensures ConfigAddress(0, 32, 0, 0) == ConfigAddress(1, 0, 0, 0)
  {
  }

  /** `read_conf32(bus, slot, func, offset)`. */
  function ReadConf32(space: ConfigSpace, bus: bv8, slot: bv8, func: bv8, offset: bv8): bv32
  {
    space(ConfigAddress(bus, slot, func, offset))
  }

  /** `read_conf16(bus, slot, func, offset)`: the high half of the dword
      when bit 1 of the offset is set, the low half otherwise. */
  function ReadConf16(space: ConfigSpace, bus: bv8, slot: bv8, func: bv8, offset: bv8): bv16
  {
    var val32 := ReadConf32(space, bus, slot, func, offset);
    if offset & 2 != 0 then ((val32 >> 16) & 0xFFFF) as bv16 else (val32 & 0xFFFF) as bv16
  }

  /** The byte at a configuration offset, in the little-endian order of the
      configuration space: a reference definition. */
  function ConfigByte(space: ConfigSpace, bus: bv8, slot: bv8, func: bv8, offset: bv8): bv8
  {
    var dword := ReadConf32(space, bus, slot, func, offset);
    var lane := offset & 3;
    if lane == 0 then (dword & 0xFF) as bv8
    else if lane == 1 then ((dword >> 8) & 0xFF) as bv8
    else if lane == 2 then ((dword >> 16) & 0xFF) as bv8
    else ((dword >> 24) & 0xFF) as bv8
  }

  /** The two words of a dword read back the dword: the word at an offset
      with bit 1 clear is its low half, the word two bytes on its high half. */
  lemma WordsOfDword(space: ConfigSpace, bus: bv8, slot: bv8, func: bv8, offset: bv8)
    requires offset & 3 == 0
    ensures ((ReadConf16(space, bus, slot, func, offset + 2) as bv32) << 16)
      | ReadConf16(space, bus, slot, func, offset) as bv32
      == ReadConf32(space, bus, slot, func, offset)
  {
    assert ConfigAddress(bus, slot, func, offset + 2) == ConfigAddress(bus, slot, func, offset);
  }

  /** `get_header_type`: the low byte of the word at 0x0E. */
  function GetHeaderType(space: ConfigSpace, bus: bv8, slot: bv8, func: bv8): bv32
  {
    (ReadConf16(space, bus, slot, func, 0x0E) & 0xFF) as bv32
  }

  /** `get_vendor_id`: the device id (offset 2) over the vendor id
      (offset 0). */
  function GetVendorId(space: ConfigSpace, bus: bv8, slot: bv8, func: bv8): bv32
  {
    ((ReadConf16(space, bus, slot, func, 2) as bv32) << 16) | ReadConf16(space, bus, slot, func, 0) as bv32
  }

  /** `get_class_code`: the high byte of the word at 0x0A. */
  function GetClassCode(space: ConfigSpace, bus: bv8, slot: bv8, func: bv8): bv8
  {
    ((ReadConf16(space, bus, slot, func, 0x0A) >> 8) & 0xFF) as bv8
  }

  /** The header type is configuration byte 0x0E, the class code byte
      0x0B, and the vendor and device ids together are the first dword. */
  lemma RegisterBytes(space: ConfigSpace, bus: bv8, slot: bv8, func: bv8)
    ensures GetHeaderType(space, bus, slot, func) == ConfigByte(space, bus, slot, func, 0x0E) as bv32
    ensures GetClassCode(space, bus, slot, func) == ConfigByte(space, bus, slot, func, 0x0B)
    ensures GetVendorId(space, bus, slot, func) == ReadConf32(space, bus, slot, func, 0)
  {
    HeaderTypeByte(space, bus, slot, func);
    ClassCodeByte(space, bus, slot, func);
    WordsOfDword(space, bus, slot, func, 0);
  }

  lemma HeaderTypeByte(space: ConfigSpace, bus: bv8, slot: bv8, func: bv8)
    ensures GetHeaderType(space, bus, slot, func) == ConfigByte(space, bus, slot, func, 0x0E) as bv32
  {
  }

  lemma ClassCodeByte(space: ConfigSpace, bus: bv8, slot: bv8, func: bv8)
    ensures GetClassCode(space, bus, slot, func) == ConfigByte(space, bus, slot, func, 0x0B)
  {
    assert ConfigAddress(bus, slot, func, 0x0B) == ConfigAddress(bus, slot, func, 0x0A);
  }

  /** The index of the first entry of `table` whose key is `key`, if any. */
  function First<K(==)>(table: seq<(K, string)>, key: K): (r: Option<nat>)
    ensures r.None? <==> forall i :: 0 <= i < |table| ==> table[i].0 != key
    ensures r.Some? ==> r.value < |table| && table[r.value].0 == key
    ensures r.Some? ==> forall i :: 0 <= i < r.value ==> table[i].0 != key
  {
    if |table| == 0 then None
    else if table[0].0 == key then Some(0)
    else match First(table[1..], key)
      case None => None
      case Some(i) => Some(i + 1)
  }

  /** `device_name`, `vendor_name` and `class_name`: walk the table and
      return (a pointer to) the first entry with the key, or null. */
  method Lookup<K(==)>(table: seq<(K, string)>, key: K) returns (r: Option<nat>)
    ensures r == First(table, key)
  {
    var i := 0;
    while i < |table|
      invariant i <= |table|
      invariant forall j :: 0 <= j < i ==> table[j].0 != key
    {
      if table[i].0 == key {
        return Some(i);
      }
      i := i + 1;
    }
    return None;
  }

  /** The name the scan records for a key: the table's name, or "Unknown". */
  function Label<K(==)>(table: seq<(K, string)>, key: K): string
  {
    match First(table, key)
      case Some(i) => table[i].1
      case None => UNKNOWN
  }

  /** The class table is indexed by its class codes: codes 0x00-0x0E find
      their own entry, every other code finds nothing. */
  lemma ClassTableIndexed(code: int)
    ensures 0 <= code < |CLASSES| ==> First(CLASSES, code) == Some(code)
    ensures !(0 <= code < |CLASSES|) ==> First(CLASSES, code) == None
  {
    assert forall i :: 0 <= i < |CLASSES| ==> CLASSES[i].0 == i;
    FirstIndexed(CLASSES, code);
  }

  /** In a table whose keys are its indices, a key finds its own entry. */
  lemma FirstIndexed(table: seq<(int, string)>, code: int)
    requires forall i :: 0 <= i < |table| ==> table[i].0 == i
    ensures 0 <= code < |table| ==> First(table, code) == Some(code)
    ensures !(0 <= code < |table|) ==> First(table, code) == None
  {
    if 0 <= code < |table| {
      assert table[code].0 == code;
    }
  }

  datatype Vendor = Vendor(id: int, name: string)
  datatype ClassCode = ClassCode(classCode: int, name: string)
  /** A `PciDevice` record. A zeroed record's null names are empty. */
  datatype PciDevice = PciDevice(bus: int, slot: int, func: int, deviceId: int, classCode: ClassCode, vendor: Vendor)

  const Blank: PciDevice := PciDevice(0, 0, 0, 0, ClassCode(0, ""), Vendor(0, ""))

  /** A bus, slot or function number the scan can pass. */
  predicate Small(n: int)
  {
    0 <= n < 256
  }

  /** The vendor id the scan reads for a function. */
  function VendorIdAt(space: ConfigSpace, bus: int, slot: int, func: int): int
    requires Small(bus) && Small(slot) && Small(func)
  {
    (GetVendorId(space, bus as bv8, slot as bv8, func as bv8) & 0xFFFF) as int
  }

  /** A function is there unless its vendor id reads as 0xFFFF. */
  predicate Present(space: ConfigSpace, bus: int, slot: int, func: int)
    requires Small(bus) && Small(slot) && Small(func)
  {
    VendorIdAt(space, bus, slot, func) != 0xFFFF
  }

  /** The record the scan builds for a function. */
  function DeviceAt(space: ConfigSpace, bus: int, slot: int, func: int): PciDevice
    requires Small(bus) && Small(slot) && Small(func)
  {
    var vendorId := VendorIdAt(space, bus, slot, func);
    var classCode := ClassCodeAt(space, bus, slot, func);
    PciDevice(bus, slot, func, DeviceIdAt(space, bus, slot, func),
              ClassCode(classCode, Label(CLASSES, classCode)),
              Vendor(vendorId, Label(VENDORS, vendorId)))
  }

  /** The device id the scan reads for a function. */
  function DeviceIdAt(space: ConfigSpace, bus: int, slot: int, func: int): int
    requires Small(bus) && Small(slot) && Small(func)
  {
    ((GetVendorId(space, bus as bv8, slot as bv8, func as bv8) >> 16) & 0xFFFF) as int
  }

  /** The class code the scan reads for a function. */
  function ClassCodeAt(space: ConfigSpace, bus: int, slot: int, func: int): int
    requires Small(bus) && Small(slot) && Small(func)
  {
    GetClassCode(space, bus as bv8, slot as bv8, func as bv8) as int
  }

  /** The functions the scan probes in a slot: all eight when bit 7 of
      function 0's header type (multi-function) is set, else function 0. */
  function MaxFunctions(space: ConfigSpace, bus: int, slot: int): (n: nat)
    requires Small(bus) && Small(slot)
    ensures n == 1 || n == 8
  {
    if (GetHeaderType(space, bus as bv8, slot as bv8, 0) & 0xFF) as bv8 & 0x80 != 0 then 8 else 1
  }

  /** The devices found among functions 0 to n - 1 of a slot, in order. */
  function SlotDevices(space: ConfigSpace, bus: int, slot: int, n: nat): seq<PciDevice>
    requires Small(bus) && Small(slot) && n <= 8
  {
    if n == 0 then []
    else SlotDevices(space, bus, slot, n - 1) + Probe(space, bus, slot, n - 1)
  }

  /** What probing one function adds: its record, if it is present. */
  function Probe(space: ConfigSpace, bus: int, slot: int, func: int): seq<PciDevice>
    requires Small(bus) && Small(slot) && Small(func)
  {
    if Present(space, bus, slot, func) then [DeviceAt(space, bus, slot, func)] else []
  }

  /** The devices found in slots 0 to s - 1 of a bus. */
  function BusDevices(space: ConfigSpace, bus: int, s: nat): seq<PciDevice>
    requires Small(bus) && s <= 32
  {
    if s == 0 then []
    else BusDevices(space, bus, s - 1) + SlotDevices(space, bus, s - 1, MaxFunctions(space, bus, s - 1))
  }

  /** The devices found on buses 0 to b - 1. */
  function AllDevices(space: ConfigSpace, b: nat): seq<PciDevice>
    requires b <= 256
  {
    if b == 0 then [] else AllDevices(space, b - 1) + BusDevices(space, b - 1, 32)
  }

  /** Everything `enumerate_busses` finds, in the order it finds it. */
  function Found(space: ConfigSpace): seq<PciDevice>
  {
    AllDevices(space, 256)
  }

  /** The record of a function the scan probes and finds present: a slot
      below 32, function 0 unless the slot is multi-function. */
  predicate Probed(space: ConfigSpace, d: PciDevice)
  {
    && Small(d.bus) && 0 <= d.slot < 32 && 0 <= d.func < MaxFunctions(space, d.bus, d.slot)
    && Present(space, d.bus, d.slot, d.func) && d == DeviceAt(space, d.bus, d.slot, d.func)
  }

  lemma {:induction false} SlotDevicesExactly(space: ConfigSpace, bus: int, slot: int, n: nat, d: PciDevice)
    requires Small(bus) && Small(slot) && n <= 8
    ensures d in SlotDevices(space, bus, slot, n)
      <==> d.bus == bus && d.slot == slot && 0 <= d.func < n && Present(space, bus, slot, d.func)
           && d == DeviceAt(space, bus, slot, d.func)
  {
    if n > 0 {
      SlotDevicesExactly(space, bus, slot, n - 1, d);
      var f := n - 1;
      assert SlotDevices(space, bus, slot, n) == SlotDevices(space, bus, slot, f) + Probe(space, bus, slot, f);
      assert d in Probe(space, bus, slot, f) <==> Present(space, bus, slot, f) && d == DeviceAt(space, bus, slot, f);
    }
  }

  lemma {:induction false} BusDevicesExactly(space: ConfigSpace, bus: int, s: nat, d: PciDevice)
    requires Small(bus) && s <= 32
    ensures d in BusDevices(space, bus, s) <==> d.bus == bus && d.slot < s && Probed(space, d)
  {
    if s > 0 {
      var slot := s - 1;
      BusDevicesExactly(space, bus, slot, d);
      SlotDevicesExactly(space, bus, slot, MaxFunctions(space, bus, slot), d);
      assert BusDevices(space, bus, s) == BusDevices(space, bus, slot) + SlotDevices(space, bus, slot, MaxFunctions(space, bus, slot));
    }
  }

  lemma {:induction false} AllDevicesExactly(space: ConfigSpace, b: nat, d: PciDevice)
    requires b <= 256
    ensures d in AllDevices(space, b) <==> d.bus < b && Probed(space, d)
  {
    if b > 0 {
      var bus := b - 1;
      AllDevicesExactly(space, bus, d);
      BusDevicesExactly(space, bus, 32, d);
      assert AllDevices(space, b) == AllDevices(space, bus) + BusDevices(space, bus, 32);
    }
  }

  /** The scan finds exactly the probed functions: a record is found if and
      only if it is the record of a present function in a slot below 32,
      with a function number below 8 for a multi-function slot and 0
      otherwise. */
  lemma FoundExactly(space: ConfigSpace, d: PciDevice)
    ensures d in Found(space) <==> Probed(space, d)
  {
    AllDevicesExactly(space, 256, d);
  }

  /** A slot whose function 0 is not multi-function yields at most the
      record of function 0, even when other functions answer. */
  lemma SingleFunctionSlot(space: ConfigSpace, bus: int, slot: int)
    requires Small(bus) && Small(slot) && GetHeaderType(space, bus as bv8, slot as bv8, 0) & 0x80 == 0
    ensures SlotDevices(space, bus, slot, MaxFunctions(space, bus, slot)) == Probe(space, bus, slot, 0)
  {
    assert (GetHeaderType(space, bus as bv8, slot as bv8, 0) & 0xFF) as bv8 & 0x80 == 0;
  }

  /** The table after storing `found` one by one from slot `start`, the slot
      index wrapping like the `uint8_t` `pci_device_count`. */
  function Stored(table: seq<PciDevice>, start: nat, found: seq<PciDevice>): (r: seq<PciDevice>)
    requires |table| == MAX_DEVICES && start < MAX_DEVICES
    ensures |r| == MAX_DEVICES
  {
    if found == [] then table
    else Stored(table, start, found[..|found| - 1])[(start + |found| - 1) % MAX_DEVICES := found[|found| - 1]]
  }

  /** While the count does not wrap, the records land in order from `start`
      and nothing else changes. */
  lemma {:induction false} StoredInOrder(table: seq<PciDevice>, start: nat, found: seq<PciDevice>)
    requires |table| == MAX_DEVICES && start < MAX_DEVICES && start + |found| <= MAX_DEVICES
    ensures forall j :: 0 <= j < |found| ==> Stored(table, start, found)[start + j] == found[j]
    ensures forall k :: 0 <= k < start || start + |found| <= k < MAX_DEVICES ==> Stored(table, start, found)[k] == table[k]
  {
    if found != [] {
      var n := |found| - 1;
      StoredInOrder(table, start, found[..n]);
      forall j | 0 <= j < n
        ensures Stored(table, start, found)[start + j] == found[j]
      {
        assert found[..n][j] == found[j];
      }
    }
  }

  /** With more than 256 records the count wraps and later records
      overwrite earlier ones: the 257th lands where the first did. */
  lemma StoredWraps(table: seq<PciDevice>, found: seq<PciDevice>)
    requires |table| == MAX_DEVICES && |found| == MAX_DEVICES + 1
    ensures Stored(table, 0, found)[0] == found[MAX_DEVICES]
  {
  }

  lemma Associative<T>(a: seq<T>, b: seq<T>, c: seq<T>)
    ensures (a + b) + c == a + (b + c)
  {
  }

  /** The statics `pci_devices` and `pci_device_count`. */
  class Pci {
    const devices: array<PciDevice>
    var count: nat

    constructor ()
      ensures devices.Length == MAX_DEVICES && fresh(devices) && count == 0
      ensures forall k :: 0 <= k < devices.Length ==> devices[k] == Blank
    {
      devices := new PciDevice[MAX_DEVICES](_ => Blank);
      count := 0;
    }

    /** The scan's state: the table holds `found` stored from `start` on
        over `table`, and the count is where the next record goes. */
    ghost predicate Holds(table: seq<PciDevice>, start: nat, found: seq<PciDevice>)
      reads this, devices
    {
      && devices.Length == MAX_DEVICES && start < MAX_DEVICES && |table| == MAX_DEVICES
      && devices[..] == Stored(table, start, found)
      && count == (start + |found|) % MAX_DEVICES
    }

    /** Store one record at `pci_devices[pci_device_count++]`. */
    method Record(d: PciDevice, ghost table: seq<PciDevice>, ghost start: nat, ghost found: seq<PciDevice>)
      requires Holds(table, start, found)
      modifies this, devices
      ensures Holds(table, start, found + [d])
    {
      assert (found + [d])[..|found|] == found;
      devices[count] := d;
      count := (count + 1) % MAX_DEVICES;
    }

    /** The functions of one slot: function 0 only, or all eight for a
        multi-function device; absent functions are skipped. */
    method ScanSlot(space: ConfigSpace, bus: int, slot: int, ghost table: seq<PciDevice>, ghost start: nat, ghost found: seq<PciDevice>)
      returns (ghost found': seq<PciDevice>)
      requires Small(bus) && 0 <= slot < 32 && Holds(table, start, found)
      modifies this, devices
      ensures found' == found + SlotDevices(space, bus, slot, MaxFunctions(space, bus, slot))
      ensures Holds(table, start, found')
    {
      var header0 := (GetHeaderType(space, bus as bv8, slot as bv8, 0) & 0xFF) as bv8;
      var maxFunctions: nat := if header0 & 0x80 != 0 then 8 else 1;
      found' := found;
      var func: nat := 0;
      while func < maxFunctions
        invariant func <= maxFunctions == MaxFunctions(space, bus, slot)
        invariant found' == found + SlotDevices(space, bus, slot, func)
        invariant Holds(table, start, found')
      {
        ghost var next := found + SlotDevices(space, bus, slot, func + 1);
        assert next == found' + Probe(space, bus, slot, func) by {
          assert SlotDevices(space, bus, slot, func + 1) == SlotDevices(space, bus, slot, func) + Probe(space, bus, slot, func);
        }
        found' := ScanFunction(space, bus, slot, func, table, start, found');
        func := func + 1;
      }
    }

    /** One function: skipped when its vendor id reads 0xFFFF, otherwise
        named through the tables and recorded. */
    method ScanFunction(space: ConfigSpace, bus: int, slot: int, func: int, ghost table: seq<PciDevice>, ghost start: nat, ghost found: seq<PciDevice>)
      returns (ghost found': seq<PciDevice>)
      requires Small(bus) && Small(slot) && Small(func) && Holds(table, start, found)
      modifies this, devices
      ensures found' == found + Probe(space, bus, slot, func)
      ensures Holds(table, start, found')
    {
      var vendorId := VendorIdAt(space, bus, slot, func);
      if vendorId == 0xFFFF {
        return found;
      }
      var devId := DeviceIdAt(space, bus, slot, func);
      var vendor := Lookup(VENDORS, vendorId);
      var vendorStr := if vendor.Some? then VENDORS[vendor.value].1 else UNKNOWN;
      var classCode := ClassCodeAt(space, bus, slot, func);
      var cls := Lookup(CLASSES, classCode);
      var classStr := if cls.Some? then CLASSES[cls.value].1 else UNKNOWN;
      var device := PciDevice(bus, slot, func, devId, ClassCode(classCode, classStr), Vendor(vendorId, vendorStr));
      assert device == DeviceAt(space, bus, slot, func);
      Record(device, table, start, found);
      found' := found + [device];
    }

    /** The 32 slots of one bus, in order. */
    method ScanBus(space: ConfigSpace, bus: int, ghost table: seq<PciDevice>, ghost start: nat, ghost found: seq<PciDevice>)
      returns (ghost found': seq<PciDevice>)
      requires Small(bus) && Holds(table, start, found)
      modifies this, devices
      ensures found' == found + BusDevices(space, bus, 32)
      ensures Holds(table, start, found')
    {
      found' := found;
      var slot := 0;
      while slot < 32
        invariant slot <= 32 && found' == found + BusDevices(space, bus, slot)
        invariant Holds(table, start, found')
      {
        ghost var slots := BusDevices(space, bus, slot);
        ghost var functions := SlotDevices(space, bus, slot, MaxFunctions(space, bus, slot));
        found' := ScanSlot(space, bus, slot, table, start, found');
        Associative(found, slots, functions);
        slot := slot + 1;
      }
    }

    /** `enumerate_busses`: every slot below 32 of every bus, in order. The
        records land from the current count on (Holds: `pci_devices` is
        Stored(old table, old count, found) and the count has moved on by
        |found| modulo 256). */
    method EnumerateBusses(space: ConfigSpace) returns (ghost found: seq<PciDevice>)
      requires devices.Length == MAX_DEVICES && count < MAX_DEVICES
      modifies this, devices
      ensures found == Found(space)
      ensures Holds(old(devices[..]), old(count), found)
    {
      found := ScanBusses(space, devices[..], count);
    }

    /** The loop over the 256 buses. */
    method ScanBusses(space: ConfigSpace, ghost table: seq<PciDevice>, ghost start: nat) returns (ghost found: seq<PciDevice>)
      requires Holds(table, start, [])
      modifies this, devices
      ensures found == Found(space) && Holds(table, start, found)
    {
      found := [];
      var bus := 0;
      while bus < 256
        invariant bus <= 256 && found == AllDevices(space, bus)
        invariant Holds(table, start, found)
      {
        found := ScanBus(space, bus, table, start, found);
        bus := bus + 1;
      }
    }
  }
}
