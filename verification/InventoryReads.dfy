/**
 * What a reader of the inventory finds: every property under its Redfish name, with the
 * value the firmware was given for it, and no others.
 */
module InventoryReads {
  import opened Bytes
  import opened Json
  import opened RedfishBodies
  import opened MemoryInventory

  function One(b: bool): nat {
    if b then 1 else 0
  }

  /** A text is one member under its name, or none when it is empty. */
  predicate IsText(ms: seq<Member>, name: string, value: string) {
    ms == if value == "" then [] else [Member(name, Str(Clean(value)))]
  }

  predicate IsCount(ms: seq<Member>, name: string, value: nat) {
    ms == if value == 0 then [] else [Member(name, Num(value))]
  }

  /** A property is among the members if it has a value. */
  predicate Says(ms: seq<Member>, name: string, value: string) {
    value != "" ==> Member(name, Str(Clean(value))) in ms
  }

  predicate Counts(ms: seq<Member>, name: string, value: nat) {
    value != 0 ==> Member(name, Num(value)) in ms
  }

  function Given(value: Option<string>): string {
    if value.None? then "" else value.value
  }

  lemma TextIs(key: Key, value: Option<string>, name: string)
    requires Name(key) == name
    ensures IsText(TextMember(key, value), name, Given(value))
    ensures |TextMember(key, value)| == One(Given(value) != "")
  {
    hide Name, Clean;
  }

  lemma CountIs(key: Key, value: U32, name: string)
    requires Name(key) == name && IsNumber(key) && value < 0x8000_0000
    ensures IsCount(NumberMember(key, value), name, value)
    ensures |NumberMember(key, value)| == One(value != 0)
  {
    hide Name, IsNumber, Printed32;
    NumberIsHonest(key, value);
  }

  predicate Holds(all: seq<Member>, part: seq<Member>) {
    forall m <- part :: m in all
  }

  lemma Parts(a: seq<Member>, b: seq<Member>, c: seq<Member>, d: seq<Member>)
    ensures var all := a + b + c + d;
            && |all| == |a| + |b| + |c| + |d| && a <= all
            && Holds(all, a) && Holds(all, b) && Holds(all, c) && Holds(all, d)
  {
  }

  /** The lead and seven texts put together hold all of them. */
  lemma EightParts(a: seq<Member>, b: seq<Member>, c: seq<Member>, d: seq<Member>,
                   e: seq<Member>, f: seq<Member>, g: seq<Member>, h: seq<Member>)
    ensures var all := a + b + c + d + e + f + g + h;
            && |all| == |a| + |b| + |c| + |d| + |e| + |f| + |g| + |h| && a <= all
            && Holds(all, b) && Holds(all, c) && Holds(all, d) && Holds(all, e)
            && Holds(all, f) && Holds(all, g) && Holds(all, h)
  {
    var front := a + b + c + d;
    Parts(a, b, c, d);
    Parts(front, e, f, g);
    Parts(front + e + f + g, h, [], []);
    var all := front + e + f + g + h;
    assert all + [] + [] == all;
  }

  lemma HeldSays(all: seq<Member>, part: seq<Member>, name: string, value: string)
    requires Holds(all, part) && IsText(part, name, value)
    ensures Says(all, name, value)
  {
    hide Clean;
  }

  // ----- ComputerSystem

  lemma SystemNames()
    ensures Name(OfSystem(BiosVersion)) == "BiosVersion" && Name(OfSystem(Manufacturer)) == "Manufacturer"
    ensures Name(OfSystem(Model)) == "Model" && Name(OfSystem(SerialNumber)) == "SerialNumber"
    ensures Name(OfSystem(Uuid)) == "UUID"
  {
  }

  lemma ProgressSays()
    ensures SystemLead() ==
      [Member("BootProgress", Obj([Member("LastState", Str("SystemHardwareInitializationComplete"))]))]
  {
  }

  /** The PATCH reports the boot progress, and each of the host's texts that is set under its own name. */
  lemma SystemSays(h: Host)
    ensures var ms := SystemMembers(h);
      && Member("BootProgress", Obj([Member("LastState", Str("SystemHardwareInitializationComplete"))])) in ms
      && Says(ms, "BiosVersion", h.biosVersion) && Says(ms, "Manufacturer", h.manufacturer)
      && Says(ms, "Model", h.model) && Says(ms, "SerialNumber", h.serialNumber)
      && Says(ms, "UUID", Given(UuidOption(h)))
      && |ms| == 1 + One(h.biosVersion != "") + One(h.manufacturer != "") + One(h.model != "")
                   + One(h.serialNumber != "") + One(Given(UuidOption(h)) != "")
  {
    hide Name, TextMember, Clean, SystemLead, UuidOption;
    SystemNames();
    ProgressSays();
    TextIs(OfSystem(BiosVersion), Some(h.biosVersion), "BiosVersion");
    TextIs(OfSystem(Manufacturer), Some(h.manufacturer), "Manufacturer");
    TextIs(OfSystem(Model), Some(h.model), "Model");
    TextIs(OfSystem(SerialNumber), Some(h.serialNumber), "SerialNumber");
    TextIs(OfSystem(Uuid), UuidOption(h), "UUID");
  }

  // ----- Memory

  lemma MemoryNames()
    ensures Name(OfMemory(DeviceLocator)) == "DeviceLocator" && Name(OfResource(DisplayName)) == "Name"
    ensures Name(OfResource(PartNumber)) == "PartNumber"
    ensures Name(OfMemory(MemoryDeviceType)) == "MemoryDeviceType"
    ensures Name(OfMemory(BaseModuleType)) == "BaseModuleType"
  {
  }

  lemma MemoryCounts()
    ensures Name(OfWidth(CapacityMiB)) == "CapacityMiB" && Name(OfWidth(OperatingSpeedMhz)) == "OperatingSpeedMhz"
    ensures Name(OfWidth(DataWidthBits)) == "DataWidthBits" && Name(OfWidth(BusWidthBits)) == "BusWidthBits"
    ensures Name(OfMemory(AllowedSpeeds)) == "AllowedSpeedsMHz"
    ensures IsNumber(OfWidth(CapacityMiB)) && IsNumber(OfWidth(OperatingSpeedMhz))
    ensures IsNumber(OfWidth(DataWidthBits)) && IsNumber(OfWidth(BusWidthBits))
  {
  }

  /** The lead has the schema, the status and the memory type. */
  lemma MemoryLeadSays()
    ensures |MemoryLead()| == 3
    ensures MemoryLead()[2] == Member("MemoryType", Str("DRAM"))
  {
  }

  lemma MemoryTextsSay(m: MemoryModule)
    ensures var ms := MemoryTexts(m);
      && MemoryLead() <= ms
      && Says(ms, "DeviceLocator", m.deviceLocator) && Says(ms, "Name", m.deviceLocator)
      && Says(ms, "Manufacturer", m.manufacturer) && Says(ms, "SerialNumber", m.serialNumber)
      && Says(ms, "PartNumber", m.partNumber)
      && Says(ms, "MemoryDeviceType", Given(DeviceTypeOption(m)))
      && Says(ms, "BaseModuleType", Given(ModuleTypeOption(m)))
      && |ms| == 3 + 2 * One(m.deviceLocator != "") + One(m.manufacturer != "") + One(m.serialNumber != "")
                   + One(m.partNumber != "") + One(Given(DeviceTypeOption(m)) != "")
                   + One(Given(ModuleTypeOption(m)) != "")
  {
    hide Name, TextMember, Clean, MemoryLead, DeviceTypeOption, ModuleTypeOption, Holds, Says, IsText, One;
    SystemNames();
    MemoryNames();
    MemoryLeadSays();
    TextIs(OfMemory(DeviceLocator), Some(m.deviceLocator), "DeviceLocator");
    TextIs(OfResource(DisplayName), Some(m.deviceLocator), "Name");
    TextIs(OfSystem(Manufacturer), Some(m.manufacturer), "Manufacturer");
    TextIs(OfSystem(SerialNumber), Some(m.serialNumber), "SerialNumber");
    TextIs(OfResource(PartNumber), Some(m.partNumber), "PartNumber");
    TextIs(OfMemory(MemoryDeviceType), DeviceTypeOption(m), "MemoryDeviceType");
    TextIs(OfMemory(BaseModuleType), ModuleTypeOption(m), "BaseModuleType");
    EightParts(
      MemoryLead(),
      TextMember(OfMemory(DeviceLocator), Some(m.deviceLocator)),
      TextMember(OfResource(DisplayName), Some(m.deviceLocator)),
      TextMember(OfSystem(Manufacturer), Some(m.manufacturer)),
      TextMember(OfSystem(SerialNumber), Some(m.serialNumber)),
      TextMember(OfResource(PartNumber), Some(m.partNumber)),
      TextMember(OfMemory(MemoryDeviceType), DeviceTypeOption(m)),
      TextMember(OfMemory(BaseModuleType), ModuleTypeOption(m)));
    var ms := MemoryTexts(m);
    HeldSays(ms, TextMember(OfMemory(DeviceLocator), Some(m.deviceLocator)), "DeviceLocator", Given(Some(m.deviceLocator)));
    HeldSays(ms, TextMember(OfResource(DisplayName), Some(m.deviceLocator)), "Name", Given(Some(m.deviceLocator)));
    HeldSays(ms, TextMember(OfSystem(Manufacturer), Some(m.manufacturer)), "Manufacturer", Given(Some(m.manufacturer)));
    HeldSays(ms, TextMember(OfSystem(SerialNumber), Some(m.serialNumber)), "SerialNumber", Given(Some(m.serialNumber)));
    HeldSays(ms, TextMember(OfResource(PartNumber), Some(m.partNumber)), "PartNumber", Given(Some(m.partNumber)));
    HeldSays(ms, TextMember(OfMemory(MemoryDeviceType), DeviceTypeOption(m)), "MemoryDeviceType", Given(DeviceTypeOption(m)));
    HeldSays(ms, TextMember(OfMemory(BaseModuleType), ModuleTypeOption(m)), "BaseModuleType", Given(ModuleTypeOption(m)));
  }

  lemma MemoryNumbersSay(m: MemoryModule)
    ensures var ms := MemoryNumbers(m);
      && MemoryTexts(m) <= ms
      && Counts(ms, "CapacityMiB", m.capacityMiB) && Counts(ms, "OperatingSpeedMhz", m.operatingSpeedMhz)
      && Counts(ms, "DataWidthBits", m.dataWidthBits) && Counts(ms, "BusWidthBits", m.busWidthBits)
      && |ms| == |MemoryTexts(m)| + One(m.capacityMiB != 0) + One(m.operatingSpeedMhz != 0)
                 + One(m.dataWidthBits != 0) + One(m.busWidthBits != 0)
  {
    hide Name, NumberMember, MemoryTexts, IsNumber;
    MemoryCounts();
    CountIs(OfWidth(CapacityMiB), m.capacityMiB, "CapacityMiB");
    CountIs(OfWidth(OperatingSpeedMhz), m.operatingSpeedMhz, "OperatingSpeedMhz");
    CountIs(OfWidth(DataWidthBits), m.dataWidthBits, "DataWidthBits");
    CountIs(OfWidth(BusWidthBits), m.busWidthBits, "BusWidthBits");
  }

  /** The POST of a module reports each of its fields that is set, under its own name, and nothing else. */
  lemma MemorySays(m: MemoryModule)
    ensures var ms := MemoryMembers(m);
      && Says(ms, "DeviceLocator", m.deviceLocator) && Says(ms, "Name", m.deviceLocator)
      && Says(ms, "Manufacturer", m.manufacturer) && Says(ms, "SerialNumber", m.serialNumber)
      && Says(ms, "PartNumber", m.partNumber)
      && Says(ms, "MemoryDeviceType", Given(DeviceTypeOption(m)))
      && Says(ms, "BaseModuleType", Given(ModuleTypeOption(m)))
      && Counts(ms, "CapacityMiB", m.capacityMiB) && Counts(ms, "OperatingSpeedMhz", m.operatingSpeedMhz)
      && Counts(ms, "DataWidthBits", m.dataWidthBits) && Counts(ms, "BusWidthBits", m.busWidthBits)
      && (m.ratedSpeedMhz != 0 ==> Member("AllowedSpeedsMHz", Arr([Num(m.ratedSpeedMhz)])) in ms)
      && |ms| == 3 + 2 * One(m.deviceLocator != "") + One(m.manufacturer != "") + One(m.serialNumber != "")
                   + One(m.partNumber != "") + One(Given(DeviceTypeOption(m)) != "")
                   + One(Given(ModuleTypeOption(m)) != "") + One(m.capacityMiB != 0)
                   + One(m.operatingSpeedMhz != 0) + One(m.dataWidthBits != 0) + One(m.busWidthBits != 0)
                   + One(m.ratedSpeedMhz != 0)
  {
    hide Name, Clean, MemoryTexts, MemoryNumbers, DeviceTypeOption, ModuleTypeOption;
    MemoryCounts();
    MemoryTextsSay(m);
    MemoryNumbersSay(m);
    Within(MemoryTexts(m), MemoryNumbers(m));
    Within(MemoryNumbers(m), MemoryMembers(m));
  }

  lemma Within(a: seq<Member>, b: seq<Member>)
    requires a <= b
    ensures forall m <- a :: m in b
  {
  }

  // ----- Drives

  lemma DriveNames()
    ensures Name(OfDrive(Revision)) == "Revision" && Name(OfDrive(Protocol)) == "Protocol"
    ensures Name(OfDrive(MediaType)) == "MediaType" && Name(OfDrive(CapacityBytes)) == "CapacityBytes"
    ensures Name(OfResource(DisplayName)) == "Name"
  {
  }

  lemma LeadIsTwo(schema: string, state: string)
    ensures |ResourceLead(schema, state)| == 2
  {
  }

  lemma DriveTextsSay(d: Drive)
    ensures var ms := DriveTexts(d);
      && Says(ms, "Name", d.model) && Says(ms, "Model", d.model)
      && Says(ms, "SerialNumber", d.serialNumber) && Says(ms, "Revision", d.revision)
      && Says(ms, "Protocol", Given(ProtocolOption(d))) && Says(ms, "MediaType", Given(MediaOption(d)))
      && |ms| == 2 + 2 * One(d.model != "") + One(d.serialNumber != "") + One(d.revision != "")
                   + One(Given(ProtocolOption(d)) != "") + One(Given(MediaOption(d)) != "")
  {
    hide Name, TextMember, Clean, ResourceLead, ProtocolOption, MediaOption;
    SystemNames();
    DriveNames();
    LeadIsTwo(DRIVE_SCHEMA, "Enabled");
    TextIs(OfResource(DisplayName), Some(d.model), "Name");
    TextIs(OfSystem(Model), Some(d.model), "Model");
    TextIs(OfSystem(SerialNumber), Some(d.serialNumber), "SerialNumber");
    TextIs(OfDrive(Revision), Some(d.revision), "Revision");
    TextIs(OfDrive(Protocol), ProtocolOption(d), "Protocol");
    TextIs(OfDrive(MediaType), MediaOption(d), "MediaType");
  }

  /** The POST of a drive reports each of its fields that is set, under its own name, and nothing else. */
  lemma DriveSays(d: Drive)
    ensures var ms := DriveMembers(d);
      && Says(ms, "Name", d.model) && Says(ms, "Model", d.model)
      && Says(ms, "SerialNumber", d.serialNumber) && Says(ms, "Revision", d.revision)
      && Says(ms, "Protocol", Given(ProtocolOption(d))) && Says(ms, "MediaType", Given(MediaOption(d)))
      && (0 < d.capacityBytes < 0x8000_0000_0000_0000 ==> Member("CapacityBytes", Num(d.capacityBytes)) in ms)
      && |ms| == 2 + 2 * One(d.model != "") + One(d.serialNumber != "") + One(d.revision != "")
                   + One(Given(ProtocolOption(d)) != "") + One(Given(MediaOption(d)) != "") + One(d.capacityBytes != 0)
  {
    hide Name, Clean, DriveTexts, ProtocolOption, MediaOption, CapacityMember;
    DriveTextsSay(d);
    CapacityIsHonest(d.capacityBytes);
    Within(DriveTexts(d), DriveMembers(d));
  }

  // ----- Processors

  lemma ProcessorNames()
    ensures Name(OfProcessor(ProcessorType)) == "ProcessorType" && Name(OfProcessor(Socket)) == "Socket"
    ensures Name(OfResource(DisplayName)) == "Name" && Name(OfResource(PartNumber)) == "PartNumber"
  {
  }

  lemma ProcessorCounts()
    ensures Name(OfSpeed(MaxSpeed)) == "MaxSpeedMHz" && Name(OfSpeed(OperatingSpeed)) == "OperatingSpeedMHz"
    ensures Name(OfSpeed(TotalCores)) == "TotalCores" && Name(OfSpeed(TotalEnabledCores)) == "TotalEnabledCores"
    ensures Name(OfSpeed(TotalThreads)) == "TotalThreads"
    ensures forall k :: IsNumber(OfSpeed(k))
  {
  }

  /** A disabled processor says so. */
  lemma StateSays(p: Processor)
    ensures ProcessorLead(p)[1] ==
      Member("Status", Obj([Member("State", Str(if p.enabled then "Enabled" else "Disabled")), Member("Health", Str("OK"))]))
    ensures |ProcessorLead(p)| == 4
  {
  }

  lemma IdSays(id: string)
    ensures IdMember(id) == Member("ProcessorId", Obj([Member("IdentificationRegisters", Str(id))]))
  {
  }

  lemma ProcessorTextsSay(p: Processor)
    ensures var ms := ProcessorTexts(p);
      && ProcessorLead(p) <= ms
      && Says(ms, "ProcessorType", Given(ProcessorTypeOption(p)))
      && Says(ms, "Socket", p.socket) && Says(ms, "Name", p.socket)
      && Says(ms, "Manufacturer", p.manufacturer) && Says(ms, "Model", p.model)
      && Says(ms, "SerialNumber", p.serialNumber) && Says(ms, "PartNumber", p.partNumber)
      && |ms| == 4 + One(Given(ProcessorTypeOption(p)) != "") + 2 * One(p.socket != "") + One(p.manufacturer != "")
                   + One(p.model != "") + One(p.serialNumber != "") + One(p.partNumber != "")
  {
    hide Name, TextMember, Clean, ProcessorLead, ProcessorTypeOption, Holds, Says, IsText, One;
    SystemNames();
    ProcessorNames();
    StateSays(p);
    TextIs(OfProcessor(ProcessorType), ProcessorTypeOption(p), "ProcessorType");
    TextIs(OfProcessor(Socket), Some(p.socket), "Socket");
    TextIs(OfResource(DisplayName), Some(p.socket), "Name");
    TextIs(OfSystem(Manufacturer), Some(p.manufacturer), "Manufacturer");
    TextIs(OfSystem(Model), Some(p.model), "Model");
    TextIs(OfSystem(SerialNumber), Some(p.serialNumber), "SerialNumber");
    TextIs(OfResource(PartNumber), Some(p.partNumber), "PartNumber");
    EightParts(
      ProcessorLead(p),
      TextMember(OfProcessor(ProcessorType), ProcessorTypeOption(p)),
      TextMember(OfProcessor(Socket), Some(p.socket)),
      TextMember(OfResource(DisplayName), Some(p.socket)),
      TextMember(OfSystem(Manufacturer), Some(p.manufacturer)),
      TextMember(OfSystem(Model), Some(p.model)),
      TextMember(OfSystem(SerialNumber), Some(p.serialNumber)),
      TextMember(OfResource(PartNumber), Some(p.partNumber)));
    var ms := ProcessorTexts(p);
    HeldSays(ms, TextMember(OfProcessor(ProcessorType), ProcessorTypeOption(p)), "ProcessorType", Given(ProcessorTypeOption(p)));
    HeldSays(ms, TextMember(OfProcessor(Socket), Some(p.socket)), "Socket", Given(Some(p.socket)));
    HeldSays(ms, TextMember(OfResource(DisplayName), Some(p.socket)), "Name", Given(Some(p.socket)));
    HeldSays(ms, TextMember(OfSystem(Manufacturer), Some(p.manufacturer)), "Manufacturer", Given(Some(p.manufacturer)));
    HeldSays(ms, TextMember(OfSystem(Model), Some(p.model)), "Model", Given(Some(p.model)));
    HeldSays(ms, TextMember(OfSystem(SerialNumber), Some(p.serialNumber)), "SerialNumber", Given(Some(p.serialNumber)));
    HeldSays(ms, TextMember(OfResource(PartNumber), Some(p.partNumber)), "PartNumber", Given(Some(p.partNumber)));
  }

  lemma ProcessorNumbersSay(p: Processor)
    ensures var ms := ProcessorNumbers(p);
      && ProcessorTexts(p) <= ms
      && Counts(ms, "MaxSpeedMHz", p.maxSpeedMhz) && Counts(ms, "OperatingSpeedMHz", p.operatingSpeedMhz)
      && Counts(ms, "TotalCores", p.totalCores) && Counts(ms, "TotalEnabledCores", p.totalEnabledCores)
      && Counts(ms, "TotalThreads", p.totalThreads)
      && |ms| == |ProcessorTexts(p)| + One(p.maxSpeedMhz != 0) + One(p.operatingSpeedMhz != 0)
                 + One(p.totalCores != 0) + One(p.totalEnabledCores != 0) + One(p.totalThreads != 0)
  {
    hide Name, NumberMember, ProcessorTexts, IsNumber;
    ProcessorCounts();
    CountIs(OfSpeed(MaxSpeed), p.maxSpeedMhz, "MaxSpeedMHz");
    CountIs(OfSpeed(OperatingSpeed), p.operatingSpeedMhz, "OperatingSpeedMHz");
    CountIs(OfSpeed(TotalCores), p.totalCores, "TotalCores");
    CountIs(OfSpeed(TotalEnabledCores), p.totalEnabledCores, "TotalEnabledCores");
    CountIs(OfSpeed(TotalThreads), p.totalThreads, "TotalThreads");
  }

  /** The POST of a processor reports its state and each of its fields that is set, under its own name. */
  lemma ProcessorSays(p: Processor)
    ensures var ms := ProcessorMembers(p);
      && Member("Status", Obj([Member("State", Str(if p.enabled then "Enabled" else "Disabled")),
                               Member("Health", Str("OK"))])) in ms
      && Says(ms, "ProcessorType", Given(ProcessorTypeOption(p)))
      && Says(ms, "Socket", p.socket) && Says(ms, "Name", p.socket)
      && Says(ms, "Manufacturer", p.manufacturer) && Says(ms, "Model", p.model)
      && Says(ms, "SerialNumber", p.serialNumber) && Says(ms, "PartNumber", p.partNumber)
      && Counts(ms, "MaxSpeedMHz", p.maxSpeedMhz) && Counts(ms, "OperatingSpeedMHz", p.operatingSpeedMhz)
      && Counts(ms, "TotalCores", p.totalCores) && Counts(ms, "TotalEnabledCores", p.totalEnabledCores)
      && Counts(ms, "TotalThreads", p.totalThreads)
      && (p.idRegisters != "" ==>
            Member("ProcessorId", Obj([Member("IdentificationRegisters", Str(p.idRegisters))])) in ms)
      && |ms| == 4 + One(Given(ProcessorTypeOption(p)) != "") + 2 * One(p.socket != "") + One(p.manufacturer != "")
                   + One(p.model != "") + One(p.serialNumber != "") + One(p.partNumber != "")
                   + One(p.maxSpeedMhz != 0) + One(p.operatingSpeedMhz != 0) + One(p.totalCores != 0)
                   + One(p.totalEnabledCores != 0) + One(p.totalThreads != 0) + One(p.idRegisters != "")
  {
    hide Name, Clean, ProcessorTexts, ProcessorNumbers, ProcessorTypeOption, ProcessorLead, IdMember;
    StateSays(p);
    IdSays(p.idRegisters);
    ProcessorTextsSay(p);
    ProcessorNumbersSay(p);
    assert ProcessorLead(p)[1] in ProcessorLead(p);
    Within(ProcessorLead(p), ProcessorTexts(p));
    Within(ProcessorTexts(p), ProcessorNumbers(p));
    Within(ProcessorNumbers(p), ProcessorMembers(p));
  }
}
