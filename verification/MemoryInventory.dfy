/** The memory modules behind the SMBIOS type 17 records. */
module MemoryInventory {

  import opened Bytes
  import opened RedfishBodies

  /**
   * A structure as the walk over the SMBIOS table meets it. The strings are those its
   * numbers refer to; a field that the record is too short for is absent.
   */
  datatype Record =
    | OtherRecord
    | Type17(
        size: U16,
        extendedSize: Option<U32>,
        deviceLocator: Option<string>,
        manufacturer: Option<string>,
        serialNumber: Option<string>,
        partNumber: Option<string>,
        memoryType: Byte,
        formFactor: Byte,
        dataWidth: U16,
        totalWidth: U16,
        speed: U16,
        configuredSpeed: Option<U16>)

  /** CopyInventoryString: at most 63 characters are kept. */
  function Copied(s: Option<string>): Field {
    if s.None? then "" else if |s.value| >= STR_MAX then s.value[..STR_MAX - 1] else s.value
  }

  /** The Redfish name of an SMBIOS memory type (section 7.18.2 of DSP0134), if it has one. */
  function DeviceType(t: Byte): Option<DeviceTypeName> {
    match t
    case 0x0F => Some("SDRAM")
    case 0x12 => Some("DDR")
    case 0x13 => Some("DDR2")
    case 0x18 => Some("DDR3")
    case 0x1A => Some("DDR4")
    case 0x1B => Some("LPDDR_SDRAM")
    case 0x1C => Some("LPDDR2_SDRAM")
    case 0x1D => Some("LPDDR3_SDRAM")
    case 0x1E => Some("LPDDR4_SDRAM")
    case _ => None
  }

  /** The Redfish name of an SMBIOS form factor (section 7.18.1 of DSP0134), if it has one. */
  function ModuleType(f: Byte): Option<ModuleTypeName> {
    match f
    case 0x0D => Some("SO_DIMM")
    case 0x09 => Some("UDIMM")
    case 0x0C => Some("RDIMM")
    case 0x0F => Some("LRDIMM")
    case _ => None
  }

  /** The capacity the size fields stand for; 0 for an empty socket and an unknown size. */
  function CapacityOf(size: U16, extendedSize: Option<U32>): (mib: U31)
    ensures size == 0 || size == 0xFFFF || (size == 0x7FFF && extendedSize.None?) ==> mib == 0
    ensures 0 < size < 0x7FFF ==> mib == size
    ensures size == 0x7FFF && extendedSize.Some? ==> mib == extendedSize.value % 0x8000_0000
    ensures 0x8000 <= size < 0xFFFF ==> mib * 1024 <= size - 0x8000 < mib * 1024 + 1024
  {
    if size == 0 || size == 0xFFFF then 0
    else if size == 0x7FFF then if extendedSize.None? then 0 else extendedSize.value % 0x8000_0000
    else if size >= 0x8000 then size % 0x8000 / 1024
    else size
  }

  predicate Populated(r: Record) {
    r.Type17? && CapacityOf(r.size, r.extendedSize) != 0
  }

  /** A socket is populated unless its size is zero, unknown, missing, or below a mebibyte. */
  lemma PopulatedExactly(r: Record)
    ensures Populated(r) <==>
            r.Type17? &&
            (|| 0 < r.size < 0x7FFF
             || (r.size == 0x7FFF && r.extendedSize.Some? && r.extendedSize.value % 0x8000_0000 != 0)
             || (0x8000 <= r.size < 0xFFFF && r.size - 0x8000 >= 1024))
  {
  }

  function ModuleOf(r: Record): MemoryModule
    requires r.Type17?
  {
    MemoryModule(
      Copied(r.deviceLocator), Copied(r.manufacturer), Copied(r.serialNumber), Copied(r.partNumber),
      DeviceType(r.memoryType), ModuleType(r.formFactor), CapacityOf(r.size, r.extendedSize),
      if r.configuredSpeed.Some? && r.configuredSpeed.value != 0 then r.configuredSpeed.value else r.speed,
      r.speed, r.dataWidth, r.totalWidth)
  }

  /** What CopyInventoryString keeps of a text: all of it up to 63 characters, the first 63 of a longer one. */
  predicate Keeps(field: string, s: Option<string>) {
    match s
    case None => field == ""
    case Some(t) => field <= t && |field| == if |t| < 64 then |t| else 63
  }

  /** What a module says of itself is what its record says. */
  lemma ModuleSays(r: Record)
    requires r.Type17?
    ensures var m := ModuleOf(r);
            && Keeps(m.deviceLocator, r.deviceLocator) && Keeps(m.manufacturer, r.manufacturer)
            && Keeps(m.serialNumber, r.serialNumber) && Keeps(m.partNumber, r.partNumber)
            && m.capacityMiB == CapacityOf(r.size, r.extendedSize)
            && m.dataWidthBits == r.dataWidth && m.busWidthBits == r.totalWidth && m.ratedSpeedMhz == r.speed
            && (r.configuredSpeed.Some? && r.configuredSpeed.value != 0 ==>
                  m.operatingSpeedMhz == r.configuredSpeed.value)
            && (r.configuredSpeed.None? || r.configuredSpeed.value == 0 ==> m.operatingSpeedMhz == r.speed)
            && m.memoryDeviceType == DeviceType(r.memoryType) && m.baseModuleType == ModuleType(r.formFactor)
  {
    hide CapacityOf, DeviceType, ModuleType;
  }

  /** The type names stand for the SMBIOS codes they are listed under, and for no others. */
  lemma TypesByName(t: Byte)
    ensures DeviceType(t) == Some("SDRAM") <==> t == 0x0F
    ensures DeviceType(t) == Some("DDR") <==> t == 0x12
    ensures DeviceType(t) == Some("DDR2") <==> t == 0x13
    ensures DeviceType(t) == Some("DDR3") <==> t == 0x18
    ensures DeviceType(t) == Some("DDR4") <==> t == 0x1A
    ensures ModuleType(t) == Some("SO_DIMM") <==> t == 0x0D
    ensures ModuleType(t) == Some("UDIMM") <==> t == 0x09
    ensures ModuleType(t) == Some("RDIMM") <==> t == 0x0C
    ensures ModuleType(t) == Some("LRDIMM") <==> t == 0x0F
  {
  }

  /** The modules of the populated sockets, in table order. */
  function Modules(records: seq<Record>): seq<MemoryModule> {
    if records == [] then []
    else Modules(records[..|records| - 1]) +
         if Populated(records[|records| - 1]) then [ModuleOf(records[|records| - 1])] else []
  }

  lemma {:induction false} ModulesGrow(records: seq<Record>, k: nat)
    requires k <= |records|
    ensures Modules(records[..k]) <= Modules(records)
    decreases |records| - k
  {
    if k < |records| {
      assert records[..k + 1][..k] == records[..k];
      ModulesGrow(records, k + 1);
    } else {
      assert records[..k] == records;
    }
  }

  /** NucRedfishCollectMemory: the populated sockets in table order, as many as there is room for. */
  method CollectMemory(records: seq<Record>, max: nat) returns (modules: seq<MemoryModule>)
    ensures |modules| <= max && modules <= Modules(records)
    ensures |modules| < max ==> modules == Modules(records)
  {
    hide ModuleOf, CapacityOf;
    modules := [];
    var i := 0;
    while i < |records|
      invariant 0 <= i <= |records| && |modules| <= max
      invariant modules == Modules(records[..i])
    {
      var r := records[i];
      assert records[..i + 1][..i] == records[..i];
      if r.Type17? {
        if |modules| >= max {
          break;
        }
        var capacity := CapacityOf(r.size, r.extendedSize);
        if capacity != 0 {
          modules := modules + [ModuleOf(r)];
        }
      }
      i := i + 1;
    }
    ModulesGrow(records, i);
    assert records[..|records|] == records;
  }

  /** Every module there is came from a populated socket. */
  lemma {:induction false} ModulesAreThere(records: seq<Record>, m: MemoryModule)
    ensures m in Modules(records) <==> exists r <- records :: Populated(r) && m == ModuleOf(r)
    decreases |records|
  {
    hide ModuleOf, Populated;
    if records != [] {
      var front, last := records[..|records| - 1], records[|records| - 1];
      ModulesAreThere(front, m);
      assert records == front + [last];
    }
  }
}
