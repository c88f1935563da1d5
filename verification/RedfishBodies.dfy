/**
 * The JSON bodies the firmware reports its inventory with: bounded appends into a
 * 1 KiB buffer, read back as the members that were present.
 */
module RedfishBodies {

  import opened Bytes
  import opened Json

  const STR_MAX := 64
  const JSON_MAX := 1024

  /** The content of a CHAR8[NUC_REDFISH_STR_MAX] field. */
  type Field = s: string | |s| < STR_MAX

  /** The Redfish properties that are reported, in groups. */
  datatype Key =
    | OfSystem(system: SystemKey)
    | OfResource(resource: ResourceKey)
    | OfMemory(memory: MemoryKey)
    | OfWidth(width: WidthKey)
    | OfDrive(drive: DriveKey)
    | OfProcessor(processor: ProcessorKey)
    | OfId(id: IdKey)
    | OfSpeed(speed: SpeedKey)

  datatype SystemKey = BootProgress | LastState | BiosVersion | Manufacturer | Model | SerialNumber | Uuid
  datatype ResourceKey = OdataType | Status | State | Health | DisplayName | PartNumber
  datatype MemoryKey = MemoryType | DeviceLocator | MemoryDeviceType | BaseModuleType | AllowedSpeeds
  datatype WidthKey = CapacityMiB | OperatingSpeedMhz | DataWidthBits | BusWidthBits
  datatype DriveKey = Revision | Protocol | MediaType | CapacityBytes
  datatype ProcessorKey = ProcessorArchitecture | InstructionSet | ProcessorType | Socket
  datatype IdKey = ProcessorId | IdentificationRegisters
  datatype SpeedKey = MaxSpeed | OperatingSpeed | TotalCores | TotalEnabledCores | TotalThreads

  function SystemName(k: SystemKey): string {
    match k
    case BootProgress => "BootProgress"
    case LastState => "LastState"
    case BiosVersion => "BiosVersion"
    case Manufacturer => "Manufacturer"
    case Model => "Model"
    case SerialNumber => "SerialNumber"
    case Uuid => "UUID"
  }

  function ResourceName(k: ResourceKey): string {
    match k
    case OdataType => "@odata.type"
    case Status => "Status"
    case State => "State"
    case Health => "Health"
    case DisplayName => "Name"
    case PartNumber => "PartNumber"
  }

  function MemoryName(k: MemoryKey): string {
    match k
    case MemoryType => "MemoryType"
    case DeviceLocator => "DeviceLocator"
    case MemoryDeviceType => "MemoryDeviceType"
    case BaseModuleType => "BaseModuleType"
    case AllowedSpeeds => "AllowedSpeedsMHz"
  }

  function WidthName(k: WidthKey): string {
    match k
    case CapacityMiB => "CapacityMiB"
    case OperatingSpeedMhz => "OperatingSpeedMhz"
    case DataWidthBits => "DataWidthBits"
    case BusWidthBits => "BusWidthBits"
  }

  function DriveName(k: DriveKey): string {
    match k
    case Revision => "Revision"
    case Protocol => "Protocol"
    case MediaType => "MediaType"
    case CapacityBytes => "CapacityBytes"
  }

  function ProcessorName(k: ProcessorKey): string {
    match k
    case ProcessorArchitecture => "ProcessorArchitecture"
    case InstructionSet => "InstructionSet"
    case ProcessorType => "ProcessorType"
    case Socket => "Socket"
  }

  function IdName(k: IdKey): string {
    match k
    case ProcessorId => "ProcessorId"
    case IdentificationRegisters => "IdentificationRegisters"
  }

  function SpeedName(k: SpeedKey): string {
    match k
    case MaxSpeed => "MaxSpeedMHz"
    case OperatingSpeed => "OperatingSpeedMHz"
    case TotalCores => "TotalCores"
    case TotalEnabledCores => "TotalEnabledCores"
    case TotalThreads => "TotalThreads"
  }

  function Name(key: Key): string {
    match key
    case OfSystem(k) => SystemName(k)
    case OfResource(k) => ResourceName(k)
    case OfMemory(k) => MemoryName(k)
    case OfWidth(k) => WidthName(k)
    case OfDrive(k) => DriveName(k)
    case OfProcessor(k) => ProcessorName(k)
    case OfId(k) => IdName(k)
    case OfSpeed(k) => SpeedName(k)
  }

  /** No property name needs an escape. */
  lemma NamesArePlain(key: Key)
    ensures PlainName(Name(key))
  {
    hide PlainName, SystemName, ResourceName, MemoryName, WidthName, DriveName, ProcessorName, IdName, SpeedName;
    match key
    case OfSystem(k) => SystemNamesArePlain(k);
    case OfResource(k) => ResourceNamesArePlain(k);
    case OfMemory(k) => MemoryNamesArePlain(k);
    case OfWidth(k) => WidthNamesArePlain(k);
    case OfDrive(k) => DriveNamesArePlain(k);
    case OfProcessor(k) => ProcessorNamesArePlain(k);
    case OfId(k) => IdNamesArePlain(k);
    case OfSpeed(k) => SpeedNamesArePlain(k);
  }

  lemma SystemNamesArePlain(k: SystemKey)
    ensures PlainName(SystemName(k))
  {
  }

  lemma ResourceNamesArePlain(k: ResourceKey)
    ensures PlainName(ResourceName(k))
  {
  }

  lemma MemoryNamesArePlain(k: MemoryKey)
    ensures PlainName(MemoryName(k))
  {
  }

  lemma WidthNamesArePlain(k: WidthKey)
    ensures PlainName(WidthName(k))
  {
  }

  lemma DriveNamesArePlain(k: DriveKey)
    ensures PlainName(DriveName(k))
  {
  }

  lemma ProcessorNamesArePlain(k: ProcessorKey)
    ensures PlainName(ProcessorName(k))
  {
  }

  lemma IdNamesArePlain(k: IdKey)
    ensures PlainName(IdName(k))
  {
  }

  lemma SpeedNamesArePlain(k: SpeedKey)
    ensures PlainName(SpeedName(k))
  {
  }

  /** The properties printed by AppendJsonNumber; their names leave ten digits of its buffer. */
  predicate IsNumber(key: Key) {
    key.OfWidth? || key.OfSpeed?
  }

  lemma NumberNamesFit(key: Key)
    requires IsNumber(key)
    ensures |Name(key)| <= 17
  {
  }

  /** What %d and %ld print of an unsigned value: its two's complement reading. */
  function Signed32(n: U32): int {
    if n < 0x8000_0000 then n else n - 0x1_0000_0000
  }

  function Signed64(n: nat): int {
    if n < 0x8000_0000_0000_0000 then n else n - 0x1_0000_0000_0000_0000
  }

  /** A value as it is reported: control characters become spaces. */
  function Clean(s: string): string {
    seq(|s|, i requires 0 <= i < |s| => if IsControl(s[i]) then ' ' else s[i])
  }

  lemma CleanPrints(s: string)
    ensures NoControls(Clean(s))
  {
    forall c | c in Clean(s) ensures !IsControl(c) {
    }
  }

  lemma {:induction false} EscapeAppend(a: string, b: string)
    ensures Escape(a + b) == Escape(a) + Escape(b)
    decreases |a|
  {
    if a == [] {
      assert a + b == b;
    } else {
      assert (a + b)[1..] == a[1..] + b;
      EscapeAppend(a[1..], b);
    }
  }

  lemma {:induction false} EscapeBound(s: string)
    ensures |s| <= |Escape(s)| <= 2 * |s|
    decreases |s|
  {
    if s != [] {
      EscapeBound(s[1..]);
    }
  }

  lemma EscapeOne(c: char)
    ensures Escape([c]) == EscapeChar(c)
  {
    assert [c][1..] == [];
    assert Escape([c]) == EscapeChar(c) + Escape([]);
  }

  /**
   * The escape loop of AppendJsonString, into Escaped[2 * NUC_REDFISH_STR_MAX]: it
   * stops early only with the buffer used up, which a 63-character value never does.
   */
  method EscapeValue(value: string) returns (escaped: string, used: nat)
    ensures used <= |value| && escaped == Escape(Clean(value[..used]))
    ensures |escaped| < 2 * STR_MAX
    ensures used == |value| || |escaped| >= 2 * STR_MAX - 2
    ensures value != [] ==> used > 0
    ensures |value| < STR_MAX ==> used == |value| && escaped == Escape(Clean(value))
  {
    escaped, used := [], 0;
    while used < |value| && |escaped| < 2 * STR_MAX - 2
      invariant used <= |value| && escaped == Escape(Clean(value[..used]))
      invariant |escaped| < 2 * STR_MAX
      invariant used == 0 ==> escaped == []
    {
      ghost var c := if IsControl(value[used]) then ' ' else value[used];
      EscapeAppend(Clean(value[..used]), [c]);
      EscapeOne(c);
      assert Clean(value[..used + 1]) == Clean(value[..used]) + [c];
      if value[used] == '"' || value[used] == '\\' {
        escaped := escaped + ['\\'];
        escaped := escaped + [value[used]];
      } else if IsControl(value[used]) {
        escaped := escaped + [' '];
      } else {
        escaped := escaped + [value[used]];
      }
      used := used + 1;
    }
    EscapeBound(Clean(value[..used]));
    assert value[..|value|] == value;
  }

  /** The members a string or number contributes: none when it is absent. */
  function TextMember(key: Key, value: Option<string>): seq<Member> {
    if value.None? || value.value == [] then [] else [Member(Name(key), Str(Clean(value.value)))]
  }

  function NumberMember(key: Key, value: U32): seq<Member> {
    if value == 0 then [] else [Member(Name(key), Num(Printed32(key, value)))]
  }

  /**
   * The number AppendJsonNumber prints: what %d makes of the value, without its last digit
   * where the name leaves no room for it in the 32-byte buffer.
   */
  function Printed32(key: Key, value: U32): int {
    var n := Signed32(value);
    if 4 + |Name(key)| + |PrintInt(n)| < 32 then n else -(-n / 10)
  }

  /** A number is reported as it is exactly when it has no sign bit for %d to see. */
  lemma NumberIsHonest(key: Key, value: U32)
    requires IsNumber(key)
    ensures Printed32(key, value) == value <==> value < 0x8000_0000
  {
    hide PrintNat, Name, IsNumber;
    NumberNamesFit(key);
    if value < 0x8000_0000 {
      NatWidth(value, 10);
    }
  }

  function Shortened(value: Option<string>, used: nat): Option<string> {
    if value.None? then None else Some(if used <= |value.value| then value.value[..used] else value.value)
  }

  /** AsciiStrCatS: the source is appended, or left out whole if it does not fit. */
  function CatS(dest: string, src: string): string {
    if |dest| + |src| < JSON_MAX then dest + src else dest
  }

  /** AsciiSPrint into a buffer of the given size keeps what fits before the terminator. */
  function SPrint(size: nat, s: string): string
    requires size > 0
  {
    if |s| < size then s else s[..size - 1]
  }

  /** A body under construction, with the members it is meant to hold so far. */
  class Body {
    var text: string
    ghost var members: seq<Member>

    /** The buffer never overruns, and holds every member as long as all of them fit. */
    ghost predicate Valid()
      reads this
    {
      && |text| < JSON_MAX
      && members != []
      && (|PrintMembers(members)| + 1 < JSON_MAX ==> text == ['{'] + PrintMembers(members))
    }

    constructor (lead: string, ghost leadMembers: seq<Member>)
      requires leadMembers != []
      requires |lead| < JSON_MAX && lead == ['{'] + PrintMembers(leadMembers)
      ensures Valid() && members == leadMembers
    {
      text := lead;
      members := leadMembers;
    }

    /** One append that completes the member m. */
    ghost method Note(was: string, m: Member)
      requires |text| < JSON_MAX && members != []
      requires |PrintMembers(members)| + 1 < JSON_MAX ==> was == ['{'] + PrintMembers(members)
      requires |was| + 1 + |PrintMember(m)| < JSON_MAX ==> text == was + ([','] + PrintMember(m))
      modifies this`members
      ensures Valid() && members == old(members) + [m]
    {
      hide PrintMember;
      PrintMembersSnoc(members, m);
      members := members + [m];
    }

    /** The member holds as much of the value as the escape buffer takes: all of it, up to 63 characters. */
    method AppendJsonString(key: Key, value: Option<string>) returns (ghost used: nat)
      requires Valid()
      modifies this
      ensures Valid() && members == old(members) + TextMember(key, Shortened(value, used))
      ensures value.Some? ==> used <= |value.value|
      ensures value.Some? ==> used == |value.value| || |Escape(Clean(value.value[..used]))| >= 2 * STR_MAX - 2
      ensures value.None? || |value.value| < STR_MAX ==> Shortened(value, used) == value
      ensures value.Some? && value.value != [] ==> used > 0
    {
      hide PrintMembers, Name, Escape, Clean;
      used := 0;
      if value.None? || value.value == [] {
        assert members + [] == members;
        return;
      }
      var escaped, length := EscapeValue(value.value);
      used := length;
      assert used == |value.value| ==> value.value[..used] == value.value;
      ghost var kept := Clean(value.value[..used]);
      var was := text;
      text := CatS(text, ",\"");
      text := CatS(text, Name(key));
      text := CatS(text, "\":\"");
      text := CatS(text, escaped);
      text := CatS(text, "\"");
      TextPieces(was, Name(key), kept);
      Note(was, Member(Name(key), Str(kept)));
    }

    method AppendJsonNumber(key: Key, value: U32)
      requires Valid() && IsNumber(key)
      modifies this
      ensures Valid() && members == old(members) + NumberMember(key, value)
    {
      hide PrintMembers, PrintInt, Name, IsNumber;
      if value == 0 {
        assert members + [] == members;
        return;
      }
      var was := text;
      var buffer := SPrint(32, ",\"" + Name(key) + "\":" + PrintInt(Signed32(value)));
      text := CatS(text, buffer);
      NumberPrints(key, value);
      NumberPiece(Name(key), Printed32(key, value));
      Note(was, Member(Name(key), Num(Printed32(key, value))));
    }

    /** An object or array printed whole by the caller. */
    method AppendPrinted(size: nat, piece: string, ghost m: Member)
      requires Valid()
      requires piece == [','] + PrintMember(m) && |piece| < size
      modifies this
      ensures Valid() && members == old(members) + [m]
    {
      hide PrintMembers, PrintMember;
      var was := text;
      text := CatS(text, SPrint(size, piece));
      Note(was, m);
    }

    /** The closing brace: the body is the printed object exactly when all of it fits. */
    method Close() returns (json: string)
      requires Valid()
      modifies this
      ensures members == old(members) && |json| < JSON_MAX
      ensures |Print(Obj(members))| < JSON_MAX ==> json == Print(Obj(members))
    {
      text := CatS(text, "}");
      json := text;
    }
  }

  /** The five pieces of a string member make the member's text. */
  lemma TextPieces(was: string, name: string, value: string)
    requires |was| < JSON_MAX
    ensures
      var m := Member(name, Str(value));
      var t := CatS(CatS(CatS(CatS(CatS(was, ",\""), name), "\":\""), Escape(value)), "\"");
      |t| < JSON_MAX &&
      (|was| + 1 + |PrintMember(m)| < JSON_MAX ==> t == was + ([','] + PrintMember(m)))
  {
    hide Escape;
    var m := Member(name, Str(value));
    assert Print(m.value) == ['"'] + Escape(value) + ['"'];
    if |was| + 1 + |PrintMember(m)| < JSON_MAX {
      assert was + ",\"" + name + "\":\"" + Escape(value) + "\"" == was + ([','] + PrintMember(m));
    }
  }

  lemma NumberPiece(name: string, n: int)
    ensures ",\"" + name + "\":" + PrintInt(n) == [','] + PrintMember(Member(name, Num(n)))
  {
  }

  /** What the buffer keeps of a number is the text of a number. */
  lemma NumberPrints(key: Key, value: U32)
    requires IsNumber(key)
    ensures SPrint(32, ",\"" + Name(key) + "\":" + PrintInt(Signed32(value)))
         == ",\"" + Name(key) + "\":" + PrintInt(Printed32(key, value))
  {
    hide PrintNat, Name, IsNumber;
    NumberNamesFit(key);
    var n := Signed32(value);
    var lead := ",\"" + Name(key) + "\":";
    if n >= 0 {
      NatWidth(n, 10);
    } else {
      NatWidth(-n, 10);
      if |lead| + |PrintInt(n)| >= 32 {
        LastDigit(-n);
        assert PrintInt(-(-n / 10)) == PrintInt(n)[..|PrintInt(n)| - 1];
        assert (lead + PrintInt(n))[..31] == lead + PrintInt(n)[..31 - |lead|];
      }
    }
  }

  lemma LastDigit(n: nat)
    requires |PrintNat(n)| == 10
    ensures PrintNat(n / 10) == PrintNat(n)[..9] && n / 10 > 0
  {
  }

  ghost function Pow10(k: nat): nat {
    if k == 0 then 1 else 10 * Pow10(k - 1)
  }

  lemma {:induction false} DigitCount(n: nat, k: nat)
    requires k > 0 && n < Pow10(k)
    ensures |PrintNat(n)| <= k
    decreases k
  {
    if n >= 10 {
      DigitCount(n / 10, k - 1);
    }
  }

  /** A number below ten to the k has at most k digits, for the widths that occur. */
  lemma NatWidth(n: nat, k: nat)
    requires (k == 5 && n < 100000) || (k == 10 && n < 10000000000) || (k == 19 && n < 10000000000000000000)
    ensures |PrintNat(n)| <= k
  {
    assert Pow10(5) == 100000;
    assert Pow10(10) == 10000000000;
    assert Pow10(15) == 1000000000000000;
    assert Pow10(19) == 10000000000000000000;
    DigitCount(n, k);
  }

  // ----- leads

  lemma {:induction false} PlainEscape(s: string)
    requires PlainName(s)
    ensures Escape(s) == s
    decreases |s|
  {
    if s != [] {
      assert s[0] in s;
      PlainEscape(s[1..]);
    }
  }

  /** A member whose value needs no escape. */
  function PlainText(k: Key, s: string): Member {
    Member(Name(k), Str(s))
  }

  lemma PlainTextPrints(k: Key, s: string)
    requires PlainName(s)
    ensures PrintMember(PlainText(k, s)) == "\"" + Name(k) + "\":\"" + s + "\""
    ensures PrintableMember(PlainText(k, s))
  {
    hide Name;
    NamesArePlain(k);
    PlainEscape(s);
    assert Print(Str(s)) == ['"'] + s + ['"'];
  }

  lemma ObjPrints(k: Key, members: seq<Member>)
    ensures PrintMember(Member(Name(k), Obj(members))) == "\"" + Name(k) + "\":{" + PrintMembers(members) + "}"
    ensures AllPrintable(members) ==> PrintableMember(Member(Name(k), Obj(members)))
  {
    hide PrintMembers, Name;
    NamesArePlain(k);
    assert Print(Obj(members)) == ['{'] + PrintMembers(members) + ['}'];
  }

  lemma PrintOne(a: Member)
    ensures PrintMembers([a]) == PrintMember(a)
  {
  }

  lemma PrintTwo(a: Member, b: Member)
    ensures PrintMembers([a, b]) == PrintMember(a) + "," + PrintMember(b)
  {
    hide PrintMember;
    PrintMembersSnoc([a], b);
    assert [a] + [b] == [a, b];
  }

  function StatusMember(state: string): Member {
    Member(Name(OfResource(Status)), Obj([PlainText(OfResource(State), state), PlainText(OfResource(Health), "OK")]))
  }

  function StatusText(state: string): string {
    "\"Status\":{\"State\":\"" + state + "\",\"Health\":\"OK\"}"
  }

  lemma StatusPrints(state: string)
    requires PlainName(state)
    ensures PrintMember(StatusMember(state)) == StatusText(state)
    ensures PrintableMember(StatusMember(state))
  {
    hide PrintMembers, PrintMember, PrintableMember, Name, PlainText;
    var a, b := PlainText(OfResource(State), state), PlainText(OfResource(Health), "OK");
    ObjPrints(OfResource(Status), [a, b]);
    PrintTwo(a, b);
    PlainTextPrints(OfResource(State), state);
    PlainTextPrints(OfResource(Health), "OK");
    StatusLiterals();
    assert "\"" + Name(OfResource(Status)) + "\":{"
           + ("\"" + Name(OfResource(State)) + "\":\"" + state + "\"" + "," + ("\"" + Name(OfResource(Health)) + "\":\"" + "OK" + "\"")) + "}"
        == ("\"" + Name(OfResource(Status)) + "\":{" + "\"" + Name(OfResource(State)) + "\":\"") + state
           + ("\"" + "," + "\"" + Name(OfResource(Health)) + "\":\"" + "OK" + "\"" + "}");
  }

  lemma StatusLiterals()
    ensures "\"" + Name(OfResource(Status)) + "\":{" + "\"" + Name(OfResource(State)) + "\":\"" == "\"Status\":{\"State\":\""
    ensures "\"" + "," + "\"" + Name(OfResource(Health)) + "\":\"" + "OK" + "\"" + "}" == "\",\"Health\":\"OK\"}"
  {
  }

  /** The lead of a resource: its schema type and status. */
  function ResourceLead(schema: string, state: string): seq<Member> {
    [PlainText(OfResource(OdataType), schema), StatusMember(state)]
  }

  function ResourceLeadText(schema: string, state: string): string {
    "{\"@odata.type\":\"" + schema + "\"" + "," + StatusText(state)
  }

  lemma ResourceLeadPrints(schema: string, state: string)
    requires PlainName(schema) && PlainName(state)
    ensures ResourceLeadText(schema, state) == ['{'] + PrintMembers(ResourceLead(schema, state))
    ensures AllPrintable(ResourceLead(schema, state))
    ensures |PrintMembers(ResourceLead(schema, state))| == 52 + |schema| + |state|
  {
    hide PrintMembers, PrintMember, PrintableMember, Name, PlainText, StatusText, StatusMember;
    StatusPrints(state);
    StatusWidth(state);
    PlainTextPrints(OfResource(OdataType), schema);
    PrintTwo(PlainText(OfResource(OdataType), schema), StatusMember(state));
    TypeLiteral();
    assert ['{'] + ("\"" + Name(OfResource(OdataType)) + "\":\"" + schema + "\"" + "," + StatusText(state))
        == ("{" + "\"" + Name(OfResource(OdataType)) + "\":\"") + schema + "\"" + "," + StatusText(state);
  }

  lemma StatusWidth(state: string)
    ensures |StatusText(state)| == 35 + |state|
  {
  }

  lemma TypeLiteral()
    ensures "{" + "\"" + Name(OfResource(OdataType)) + "\":\"" == "{\"@odata.type\":\""
  {
  }

  // ----- what a member adds

  /** Every member reads back. */
  predicate AllPrintable(ms: seq<Member>) {
    forall m <- ms :: PrintableMember(m)
  }

  /** The characters a string or number member takes in the body. */
  function TextCost(key: Key, value: Option<string>): nat {
    if value.None? || value.value == [] then 0 else 6 + |Name(key)| + |Escape(Clean(value.value))|
  }

  function NumberCost(key: Key, value: nat): nat {
    if value == 0 then 0 else 4 + |Name(key)| + |PrintNat(value)|
  }

  lemma TextAdds(ms: seq<Member>, key: Key, value: Option<string>)
    requires ms != []
    ensures |PrintMembers(ms + TextMember(key, value))| == |PrintMembers(ms)| + TextCost(key, value)
    ensures value.Some? ==> TextCost(key, value) <= 6 + |Name(key)| + 2 * |value.value|
    ensures AllPrintable(ms) ==> AllPrintable(ms + TextMember(key, value))
  {
    hide PrintMembers, Name, PlainName;
    if value.None? || value.value == [] {
      assert ms + [] == ms;
    } else {
      var v := Clean(value.value);
      EscapeBound(v);
      CleanPrints(value.value);
      NamesArePlain(key);
      assert PrintableMember(Member(Name(key), Str(v)));
      PrintMembersSnoc(ms, Member(Name(key), Str(v)));
      assert Print(Str(v)) == ['"'] + Escape(v) + ['"'];
    }
  }

  lemma NumberAdds(ms: seq<Member>, key: Key, value: U32)
    requires ms != [] && value < 0x8000_0000 && IsNumber(key)
    ensures |PrintMembers(ms + NumberMember(key, value))| == |PrintMembers(ms)| + NumberCost(key, value)
    ensures NumberCost(key, value) <= 4 + |Name(key)| + if value < 0x1_0000 then 5 else 10
    ensures AllPrintable(ms) ==> AllPrintable(ms + NumberMember(key, value))
  {
    hide PrintMembers, PrintNat, Name, PlainName;
    NatWidth(value, 10);
    if value < 0x1_0000 {
      NatWidth(value, 5);
    }
    if value == 0 {
      assert ms + [] == ms;
    } else {
      NamesArePlain(key);
      NumberIsHonest(key, value);
      assert PrintableMember(Member(Name(key), Num(value)));
      PrintMembersSnoc(ms, Member(Name(key), Num(value)));
      NumberPiece(Name(key), value);
    }
  }

  lemma MemberAdds(ms: seq<Member>, m: Member)
    requires ms != [] && PrintableMember(m)
    ensures |PrintMembers(ms + [m])| == |PrintMembers(ms)| + 1 + |PrintMember(m)|
    ensures AllPrintable(ms) ==> AllPrintable(ms + [m])
  {
    hide PrintMembers, PrintMember;
    PrintMembersSnoc(ms, m);
  }

  lemma ObjWidth(ms: seq<Member>)
    ensures |Print(Obj(ms))| == |PrintMembers(ms)| + 2
  {
    hide PrintMembers;
    assert Print(Obj(ms)) == ['{'] + PrintMembers(ms) + ['}'];
  }

  /** A finished body holds the members exactly when they fit the buffer. */
  lemma BodyReadsBack(json: string, ms: seq<Member>)
    requires AllPrintable(ms)
    requires |json| < JSON_MAX
    requires |Print(Obj(ms))| < JSON_MAX ==> json == Print(Obj(ms))
    ensures Parse(json) == Some(Obj(ms)) <==> |Print(Obj(ms))| < JSON_MAX
  {
    hide Print, Parse;
    ParsePrint(Obj(ms));
    if Parse(json) == Some(Obj(ms)) {
      PrintIsShortest(json);
    }
  }

  // ----- ComputerSystem PATCH

  type UuidText = s: string | |s| <= 36

  datatype Host = Host(
    biosVersion: Field,
    manufacturer: Field,
    model: Field,
    serialNumber: Field,
    uuid: Option<UuidText>)

  const BOOT_PROGRESS := "SystemHardwareInitializationComplete"

  function ProgressMember(state: string): Member {
    Member(Name(OfSystem(BootProgress)), Obj([PlainText(OfSystem(LastState), state)]))
  }

  function ProgressText(state: string): string {
    "{\"BootProgress\":{" + "\"LastState\":\"" + state + "\"}"
  }

  lemma ProgressPrints(state: string)
    requires PlainName(state)
    ensures ProgressText(state) == ['{'] + PrintMember(ProgressMember(state))
    ensures PrintableMember(ProgressMember(state)) && |PrintMember(ProgressMember(state))| == 31 + |state|
  {
    hide PrintMembers, PrintMember, PrintableMember, PlainName, Name, PlainText;
    var inner := PlainText(OfSystem(LastState), state);
    PlainTextPrints(OfSystem(LastState), state);
    ObjPrints(OfSystem(BootProgress), [inner]);
    PrintOne(inner);
    ProgressLiterals();
    assert ['{'] + ("\"" + Name(OfSystem(BootProgress)) + "\":{"
           + ("\"" + Name(OfSystem(LastState)) + "\":\"" + state + "\"") + "}")
        == ("{" + "\"" + Name(OfSystem(BootProgress)) + "\":{")
           + ("\"" + Name(OfSystem(LastState)) + "\":\"") + state + "\"}";
  }

  function SystemLead(): seq<Member> {
    [ProgressMember(BOOT_PROGRESS)]
  }

  function SystemLeadText(): string {
    ProgressText(BOOT_PROGRESS)
  }

  lemma SystemLeadPrints()
    ensures SystemLeadText() == ['{'] + PrintMembers(SystemLead())
    ensures AllPrintable(SystemLead()) && SystemLead() != [] && |PrintMembers(SystemLead())| == 67
  {
    hide PrintMembers, PrintMember, PrintableMember, PlainName, ProgressText, ProgressMember;
    ProgressIsPlain();
    ProgressPrints(BOOT_PROGRESS);
    PrintOne(ProgressMember(BOOT_PROGRESS));
  }

  lemma ProgressIsPlain()
    ensures PlainName(BOOT_PROGRESS)
  {
  }

  lemma ProgressLiterals()
    ensures "{" + "\"" + Name(OfSystem(BootProgress)) + "\":{" == "{\"BootProgress\":{"
    ensures "\"" + Name(OfSystem(LastState)) + "\":\"" == "\"LastState\":\""
  {
    assert "{" + "\"" == "{\"";
    assert Name(OfSystem(BootProgress)) == "BootProgress" && Name(OfSystem(LastState)) == "LastState";
    hide Name;
    assert "{\"" + "BootProgress" == "{\"BootProgress";
    assert "\"" + "LastState" == "\"LastState";
  }

  function UuidOption(h: Host): Option<string> {
    if h.uuid.Some? then Some(h.uuid.value) else None
  }

  function SystemMembers(h: Host): seq<Member> {
    SystemLead()
    + TextMember(OfSystem(BiosVersion), Some(h.biosVersion))
    + TextMember(OfSystem(Manufacturer), Some(h.manufacturer))
    + TextMember(OfSystem(Model), Some(h.model))
    + TextMember(OfSystem(SerialNumber), Some(h.serialNumber))
    + TextMember(OfSystem(Uuid), UuidOption(h))
  }

  lemma SystemNameWidths()
    ensures |Name(OfSystem(BiosVersion))| == 11 && |Name(OfSystem(Manufacturer))| == 12 && |Name(OfSystem(Model))| == 5
    ensures |Name(OfSystem(SerialNumber))| == 12 && |Name(OfSystem(Uuid))| == 4
  {
  }

  /** Four strings of 63 quotes and a UUID still leave room. */
  lemma SystemFits(h: Host)
    ensures |Print(Obj(SystemMembers(h)))| < JSON_MAX
    ensures AllPrintable(SystemMembers(h))
  {
    hide PrintMembers, TextMember, Name, AllPrintable, Print, SystemLead, TextCost;
    SystemNameWidths();
    SystemLeadPrints();
    var m0 := SystemLead();
    TextAdds(m0, OfSystem(BiosVersion), Some(h.biosVersion));
    var m1 := m0 + TextMember(OfSystem(BiosVersion), Some(h.biosVersion));
    TextAdds(m1, OfSystem(Manufacturer), Some(h.manufacturer));
    var m2 := m1 + TextMember(OfSystem(Manufacturer), Some(h.manufacturer));
    TextAdds(m2, OfSystem(Model), Some(h.model));
    var m3 := m2 + TextMember(OfSystem(Model), Some(h.model));
    TextAdds(m3, OfSystem(SerialNumber), Some(h.serialNumber));
    var m4 := m3 + TextMember(OfSystem(SerialNumber), Some(h.serialNumber));
    TextAdds(m4, OfSystem(Uuid), UuidOption(h));
    NoText(OfSystem(Uuid));
    ObjWidth(SystemMembers(h));
  }

  /** The PATCH body reads back as the boot progress and exactly the members SMBIOS supplied. */
  method BuildSystemPatch(h: Host) returns (json: string)
    ensures |json| < JSON_MAX
    ensures Parse(json) == Some(Obj(SystemMembers(h)))
  {
    hide Shortened, Escape, Clean, PrintMembers, Print, Parse, TextMember, SystemLeadText, SystemLead;
    SystemLeadPrints();
    SystemFits(h);
    var body := new Body(SystemLeadText(), SystemLead());
    var _ := body.AppendJsonString(OfSystem(BiosVersion), Some(h.biosVersion));
    var _ := body.AppendJsonString(OfSystem(Manufacturer), Some(h.manufacturer));
    var _ := body.AppendJsonString(OfSystem(Model), Some(h.model));
    var _ := body.AppendJsonString(OfSystem(SerialNumber), Some(h.serialNumber));
    if h.uuid.Some? {
      var _ := body.AppendJsonString(OfSystem(Uuid), Some(h.uuid.value));
    }
    NoText(OfSystem(Uuid));
    assert body.members == SystemMembers(h);
    json := body.Close();
    BodyReadsBack(json, SystemMembers(h));
  }

  lemma NoText(key: Key)
    ensures TextMember(key, None) == [] && TextCost(key, None) == 0
  {
  }

  // ----- Memory POST

  type U31 = x: int | 0 <= x < 0x8000_0000

  /** The MemoryDeviceType and BaseModuleType enumeration names have at most 12 and 7 characters. */
  type DeviceTypeName = s: string | |s| <= 12
  type ModuleTypeName = s: string | |s| <= 7

  datatype MemoryModule = MemoryModule(
    deviceLocator: Field,
    manufacturer: Field,
    serialNumber: Field,
    partNumber: Field,
    memoryDeviceType: Option<DeviceTypeName>,
    baseModuleType: Option<ModuleTypeName>,
    capacityMiB: U31,
    operatingSpeedMhz: U16,
    ratedSpeedMhz: U16,
    dataWidthBits: U16,
    busWidthBits: U16)

  const MEMORY_SCHEMA := "#Memory.v1_7_1.Memory"

  function MemoryLead(): seq<Member> {
    ResourceLead(MEMORY_SCHEMA, "Enabled") + [PlainText(OfMemory(MemoryType), "DRAM")]
  }

  function MemoryLeadText(): string {
    ResourceLeadText(MEMORY_SCHEMA, "Enabled") + ",\"MemoryType\":\"DRAM\""
  }

  lemma MemoryLeadPrints()
    ensures MemoryLeadText() == ['{'] + PrintMembers(MemoryLead())
    ensures AllPrintable(MemoryLead()) && MemoryLead() != [] && |PrintMembers(MemoryLead())| == 100
  {
    hide PrintMembers, PrintMember, PrintableMember, Name, PlainText, ResourceLeadText;
    ResourceLeadPrints(MEMORY_SCHEMA, "Enabled");
    PlainTextPrints(OfMemory(MemoryType), "DRAM");
    PrintMembersSnoc(ResourceLead(MEMORY_SCHEMA, "Enabled"), PlainText(OfMemory(MemoryType), "DRAM"));
    MemoryTypeLiteral();
  }

  lemma MemoryTypeLiteral()
    ensures [','] + ("\"" + Name(OfMemory(MemoryType)) + "\":\"" + "DRAM" + "\"") == ",\"MemoryType\":\"DRAM\""
  {
  }

  function DeviceTypeOption(m: MemoryModule): Option<string> {
    if m.memoryDeviceType.Some? then Some(m.memoryDeviceType.value) else None
  }

  function ModuleTypeOption(m: MemoryModule): Option<string> {
    if m.baseModuleType.Some? then Some(m.baseModuleType.value) else None
  }

  function MemoryTexts(m: MemoryModule): seq<Member> {
    MemoryLead()
    + TextMember(OfMemory(DeviceLocator), Some(m.deviceLocator))
    + TextMember(OfResource(DisplayName), Some(m.deviceLocator))
    + TextMember(OfSystem(Manufacturer), Some(m.manufacturer))
    + TextMember(OfSystem(SerialNumber), Some(m.serialNumber))
    + TextMember(OfResource(PartNumber), Some(m.partNumber))
    + TextMember(OfMemory(MemoryDeviceType), DeviceTypeOption(m))
    + TextMember(OfMemory(BaseModuleType), ModuleTypeOption(m))
  }

  function MemoryNumbers(m: MemoryModule): seq<Member> {
    MemoryTexts(m)
    + NumberMember(OfWidth(CapacityMiB), m.capacityMiB)
    + NumberMember(OfWidth(OperatingSpeedMhz), m.operatingSpeedMhz)
    + NumberMember(OfWidth(DataWidthBits), m.dataWidthBits)
    + NumberMember(OfWidth(BusWidthBits), m.busWidthBits)
  }

  function SpeedsMember(n: U16): Member {
    Member(Name(OfMemory(AllowedSpeeds)), Arr([Num(n)]))
  }

  function MemoryMembers(m: MemoryModule): seq<Member> {
    if m.ratedSpeedMhz == 0 then MemoryNumbers(m)
    else MemoryNumbers(m) + [SpeedsMember(m.ratedSpeedMhz)]
  }

  lemma SpeedsPrint(n: U16)
    ensures [','] + PrintMember(SpeedsMember(n)) == ",\"AllowedSpeedsMHz\":[" + PrintInt(n) + "]"
    ensures |PrintMember(SpeedsMember(n))| <= 26 && PrintableMember(SpeedsMember(n))
  {
    hide PrintNat, PlainName, Name;
    NatWidth(n, 5);
    NamesArePlain(OfMemory(AllowedSpeeds));
    assert PrintItems([Num(n)]) == Print(Num(n));
    assert Print(Arr([Num(n)])) == ['['] + PrintInt(n) + [']'];
    assert Printable(Num(n));
    SpeedsLiteral();
    assert [','] + PrintMember(SpeedsMember(n))
        == ("," + "\"" + Name(OfMemory(AllowedSpeeds)) + "\":[") + PrintInt(n) + "]";
  }

  lemma SpeedsLiteral()
    ensures "," + "\"" + Name(OfMemory(AllowedSpeeds)) + "\":[" == ",\"AllowedSpeedsMHz\":["
  {
  }

  lemma MemoryTextWidths()
    ensures |Name(OfMemory(DeviceLocator))| == 13 && |Name(OfResource(DisplayName))| == 4 && |Name(OfResource(PartNumber))| == 10
    ensures |Name(OfMemory(MemoryDeviceType))| == 16 && |Name(OfMemory(BaseModuleType))| == 14
  {
  }

  lemma MemoryNumberWidths()
    ensures |Name(OfWidth(CapacityMiB))| == 11 && |Name(OfWidth(OperatingSpeedMhz))| == 17
    ensures |Name(OfWidth(DataWidthBits))| == 13 && |Name(OfWidth(BusWidthBits))| == 12
  {
  }

  lemma MemoryTextsFit(m: MemoryModule)
    ensures |PrintMembers(MemoryTexts(m))| <= 100 + 30 + 51 + 5 * 126 + 22 + 24 + 20 + 14
    ensures AllPrintable(MemoryTexts(m)) && MemoryTexts(m) != []
  {
    hide PrintMembers, TextMember, Name, AllPrintable, MemoryLead, TextCost;
    SystemNameWidths();
    MemoryTextWidths();
    MemoryLeadPrints();
    var m0 := MemoryLead();
    TextAdds(m0, OfMemory(DeviceLocator), Some(m.deviceLocator));
    var m1 := m0 + TextMember(OfMemory(DeviceLocator), Some(m.deviceLocator));
    TextAdds(m1, OfResource(DisplayName), Some(m.deviceLocator));
    var m2 := m1 + TextMember(OfResource(DisplayName), Some(m.deviceLocator));
    TextAdds(m2, OfSystem(Manufacturer), Some(m.manufacturer));
    var m3 := m2 + TextMember(OfSystem(Manufacturer), Some(m.manufacturer));
    TextAdds(m3, OfSystem(SerialNumber), Some(m.serialNumber));
    var m4 := m3 + TextMember(OfSystem(SerialNumber), Some(m.serialNumber));
    TextAdds(m4, OfResource(PartNumber), Some(m.partNumber));
    var m5 := m4 + TextMember(OfResource(PartNumber), Some(m.partNumber));
    TextAdds(m5, OfMemory(MemoryDeviceType), DeviceTypeOption(m));
    var m6 := m5 + TextMember(OfMemory(MemoryDeviceType), DeviceTypeOption(m));
    TextAdds(m6, OfMemory(BaseModuleType), ModuleTypeOption(m));
    NoText(OfMemory(MemoryDeviceType));
    NoText(OfMemory(BaseModuleType));
  }

  /** Five strings of 63 quotes, both enumerations and every number still leave room. */
  lemma MemoryFits(m: MemoryModule)
    ensures |Print(Obj(MemoryMembers(m)))| < JSON_MAX
    ensures AllPrintable(MemoryMembers(m))
  {
    hide PrintMembers, NumberMember, Name, AllPrintable, Print, NumberCost, MemoryTexts, PrintMember, PrintableMember, SpeedsMember;
    MemoryNumberWidths();
    MemoryTextsFit(m);
    var m0 := MemoryTexts(m);
    NumberAdds(m0, OfWidth(CapacityMiB), m.capacityMiB);
    var m1 := m0 + NumberMember(OfWidth(CapacityMiB), m.capacityMiB);
    NumberAdds(m1, OfWidth(OperatingSpeedMhz), m.operatingSpeedMhz);
    var m2 := m1 + NumberMember(OfWidth(OperatingSpeedMhz), m.operatingSpeedMhz);
    NumberAdds(m2, OfWidth(DataWidthBits), m.dataWidthBits);
    var m3 := m2 + NumberMember(OfWidth(DataWidthBits), m.dataWidthBits);
    NumberAdds(m3, OfWidth(BusWidthBits), m.busWidthBits);
    SpeedsPrint(m.ratedSpeedMhz);
    MemberAdds(MemoryNumbers(m), SpeedsMember(m.ratedSpeedMhz));
    ObjWidth(MemoryMembers(m));
  }

  /** The POST body of a module reads back as exactly the properties SMBIOS type 17 supplied. */
  method BuildMemoryPost(m: MemoryModule) returns (json: string)
    ensures |json| < JSON_MAX
    ensures Parse(json) == Some(Obj(MemoryMembers(m)))
  {
    hide Shortened, Escape, Clean, PrintMembers, PrintMember, Print, PrintInt, Parse, TextMember, NumberMember, MemoryLeadText, MemoryLead, SpeedsMember;
    MemoryLeadPrints();
    MemoryFits(m);
    var body := new Body(MemoryLeadText(), MemoryLead());
    var _ := body.AppendJsonString(OfMemory(DeviceLocator), Some(m.deviceLocator));
    var _ := body.AppendJsonString(OfResource(DisplayName), Some(m.deviceLocator));
    var _ := body.AppendJsonString(OfSystem(Manufacturer), Some(m.manufacturer));
    var _ := body.AppendJsonString(OfSystem(SerialNumber), Some(m.serialNumber));
    var _ := body.AppendJsonString(OfResource(PartNumber), Some(m.partNumber));
    NoText(OfMemory(MemoryDeviceType));
    if m.memoryDeviceType.Some? {
      var _ := body.AppendJsonString(OfMemory(MemoryDeviceType), Some(m.memoryDeviceType.value));
    }
    NoText(OfMemory(BaseModuleType));
    if m.baseModuleType.Some? {
      var _ := body.AppendJsonString(OfMemory(BaseModuleType), Some(m.baseModuleType.value));
    }
    assert body.members == MemoryTexts(m);
    body.AppendJsonNumber(OfWidth(CapacityMiB), m.capacityMiB);
    body.AppendJsonNumber(OfWidth(OperatingSpeedMhz), m.operatingSpeedMhz);
    body.AppendJsonNumber(OfWidth(DataWidthBits), m.dataWidthBits);
    body.AppendJsonNumber(OfWidth(BusWidthBits), m.busWidthBits);
    if m.ratedSpeedMhz != 0 {
      SpeedsPrint(m.ratedSpeedMhz);
      body.AppendPrinted(48, ",\"AllowedSpeedsMHz\":[" + PrintInt(m.ratedSpeedMhz) + "]", SpeedsMember(m.ratedSpeedMhz));
    }
    assert body.members == MemoryMembers(m);
    json := body.Close();
    BodyReadsBack(json, MemoryMembers(m));
  }

  // ----- Drive POST

  type U64 = x: int | 0 <= x < 0x1_0000_0000_0000_0000

  /** "NVMe" or "SATA", and "SSD" or "HDD". */
  type ProtocolName = s: string | |s| <= 4
  type MediaName = s: string | |s| <= 3

  datatype Drive = Drive(
    model: Field,
    serialNumber: Field,
    revision: Field,
    protocol: Option<ProtocolName>,
    mediaType: Option<MediaName>,
    capacityBytes: U64)

  const DRIVE_SCHEMA := "#Drive.v1_4_0.Drive"

  lemma DriveLeadPlain()
    ensures PlainName(DRIVE_SCHEMA) && PlainName("Enabled")
  {
  }

  function ProtocolOption(d: Drive): Option<string> {
    if d.protocol.Some? then Some(d.protocol.value) else None
  }

  function MediaOption(d: Drive): Option<string> {
    if d.mediaType.Some? then Some(d.mediaType.value) else None
  }

  function DriveTexts(d: Drive): seq<Member> {
    ResourceLead(DRIVE_SCHEMA, "Enabled")
    + TextMember(OfResource(DisplayName), Some(d.model))
    + TextMember(OfSystem(Model), Some(d.model))
    + TextMember(OfSystem(SerialNumber), Some(d.serialNumber))
    + TextMember(OfDrive(Revision), Some(d.revision))
    + TextMember(OfDrive(Protocol), ProtocolOption(d))
    + TextMember(OfDrive(MediaType), MediaOption(d))
  }

  function CapacityMember(n: U64): Member {
    Member(Name(OfDrive(CapacityBytes)), Num(Signed64(n)))
  }

  function DriveMembers(d: Drive): seq<Member> {
    if d.capacityBytes == 0 then DriveTexts(d) else DriveTexts(d) + [CapacityMember(d.capacityBytes)]
  }

  /** The capacity is reported as it is exactly when it has no sign bit for %ld to see. */
  lemma CapacityIsHonest(n: U64)
    ensures CapacityMember(n) == Member("CapacityBytes", Num(n)) <==> n < 0x8000_0000_0000_0000
  {
  }

  lemma CapacityPrints(n: U64)
    ensures [','] + PrintMember(CapacityMember(n)) == ",\"CapacityBytes\":" + PrintInt(Signed64(n))
    ensures |PrintMember(CapacityMember(n))| <= 36 && PrintableMember(CapacityMember(n))
  {
    hide PrintNat, PlainName, Name;
    var v := Signed64(n);
    NatWidth(if v < 0 then -v else v, 19);
    NamesArePlain(OfDrive(CapacityBytes));
    CapacityLiteral();
    assert [','] + PrintMember(CapacityMember(n)) == ("," + "\"" + Name(OfDrive(CapacityBytes)) + "\":") + PrintInt(v);
  }

  lemma CapacityLiteral()
    ensures "," + "\"" + Name(OfDrive(CapacityBytes)) + "\":" == ",\"CapacityBytes\":"
  {
  }

  lemma DriveTextWidths()
    ensures |Name(OfResource(DisplayName))| == 4 && |Name(OfDrive(Revision))| == 8 && |Name(OfDrive(Protocol))| == 8
    ensures |Name(OfDrive(MediaType))| == 9
  {
  }

  /** Four strings of 63 quotes and a 64-bit capacity still leave room. */
  lemma DriveFits(d: Drive)
    ensures |Print(Obj(DriveMembers(d)))| < JSON_MAX
    ensures AllPrintable(DriveMembers(d)) && DriveTexts(d) != []
  {
    hide PrintMembers, PrintMember, PrintableMember, TextMember, Name, AllPrintable, Print, CapacityMember, TextCost;
    SystemNameWidths();
    DriveTextWidths();
    DriveLeadPlain();
    ResourceLeadPrints(DRIVE_SCHEMA, "Enabled");
    var m0 := ResourceLead(DRIVE_SCHEMA, "Enabled");
    TextAdds(m0, OfResource(DisplayName), Some(d.model));
    var m1 := m0 + TextMember(OfResource(DisplayName), Some(d.model));
    TextAdds(m1, OfSystem(Model), Some(d.model));
    var m2 := m1 + TextMember(OfSystem(Model), Some(d.model));
    TextAdds(m2, OfSystem(SerialNumber), Some(d.serialNumber));
    var m3 := m2 + TextMember(OfSystem(SerialNumber), Some(d.serialNumber));
    TextAdds(m3, OfDrive(Revision), Some(d.revision));
    var m4 := m3 + TextMember(OfDrive(Revision), Some(d.revision));
    TextAdds(m4, OfDrive(Protocol), ProtocolOption(d));
    var m5 := m4 + TextMember(OfDrive(Protocol), ProtocolOption(d));
    TextAdds(m5, OfDrive(MediaType), MediaOption(d));
    NoText(OfDrive(Protocol));
    NoText(OfDrive(MediaType));
    CapacityPrints(d.capacityBytes);
    MemberAdds(DriveTexts(d), CapacityMember(d.capacityBytes));
    ObjWidth(DriveMembers(d));
  }

  /** The POST body of a drive reads back as exactly its identity and its signed capacity. */
  method BuildDrivePost(d: Drive) returns (json: string)
    ensures |json| < JSON_MAX
    ensures Parse(json) == Some(Obj(DriveMembers(d)))
  {
    hide Shortened, Escape, Clean, PrintMembers, PrintMember, Print, PrintInt, Parse, PlainName, TextMember, ResourceLeadText, CapacityMember;
    DriveLeadPlain();
    ResourceLeadPrints(DRIVE_SCHEMA, "Enabled");
    DriveFits(d);
    var body := new Body(ResourceLeadText(DRIVE_SCHEMA, "Enabled"), ResourceLead(DRIVE_SCHEMA, "Enabled"));
    var _ := body.AppendJsonString(OfResource(DisplayName), Some(d.model));
    var _ := body.AppendJsonString(OfSystem(Model), Some(d.model));
    var _ := body.AppendJsonString(OfSystem(SerialNumber), Some(d.serialNumber));
    var _ := body.AppendJsonString(OfDrive(Revision), Some(d.revision));
    var _ := body.AppendJsonString(OfDrive(Protocol), ProtocolOption(d));
    NoText(OfDrive(MediaType));
    if d.mediaType.Some? {
      var _ := body.AppendJsonString(OfDrive(MediaType), Some(d.mediaType.value));
    }
    if d.capacityBytes != 0 {
      CapacityPrints(d.capacityBytes);
      body.AppendPrinted(48, ",\"CapacityBytes\":" + PrintInt(Signed64(d.capacityBytes)), CapacityMember(d.capacityBytes));
    }
    assert body.members == DriveMembers(d);
    json := body.Close();
    BodyReadsBack(json, DriveMembers(d));
  }

  // ----- Processor POST

  /** "0x" and sixteen hexadecimal digits, or nothing. */
  type IdText = s: string | |s| <= 18 && PlainName(s)

  datatype Processor = Processor(
    socket: Field,
    manufacturer: Field,
    model: Field,
    serialNumber: Field,
    partNumber: Field,
    idRegisters: IdText,
    processorType: Option<MediaName>,
    maxSpeedMhz: U16,
    operatingSpeedMhz: U16,
    totalCores: U16,
    totalEnabledCores: U16,
    totalThreads: U16,
    enabled: bool)

  const PROCESSOR_SCHEMA := "#Processor.v1_14_0.Processor"

  function StateName(p: Processor): string {
    if p.enabled then "Enabled" else "Disabled"
  }

  lemma ProcessorLeadPlain(p: Processor)
    ensures PlainName(PROCESSOR_SCHEMA) && PlainName(StateName(p))
    ensures |PROCESSOR_SCHEMA| == 28 && |StateName(p)| == if p.enabled then 7 else 8
  {
  }

  function ArchitectureMember(): Member {
    PlainText(OfProcessor(ProcessorArchitecture), "x86")
  }

  function InstructionMember(): Member {
    PlainText(OfProcessor(InstructionSet), "x86-64")
  }

  lemma ArchitecturePrints()
    ensures [','] + PrintMember(ArchitectureMember()) == ",\"ProcessorArchitecture\":\"" + "x86" + "\""
    ensures PrintableMember(ArchitectureMember())
  {
    hide PrintMember, PrintableMember, Name, PlainText;
    PlainTextPrints(OfProcessor(ProcessorArchitecture), "x86");
    ArchitectureLiteral();
    assert [','] + ("\"" + Name(OfProcessor(ProcessorArchitecture)) + "\":\"" + "x86" + "\"")
        == ("," + "\"" + Name(OfProcessor(ProcessorArchitecture)) + "\":\"") + "x86" + "\"";
  }

  lemma ArchitectureLiteral()
    ensures "," + "\"" + Name(OfProcessor(ProcessorArchitecture)) + "\":\"" == ",\"ProcessorArchitecture\":\""
  {
  }

  lemma InstructionPrints()
    ensures [','] + PrintMember(InstructionMember()) == ",\"InstructionSet\":\"" + "x86-64" + "\""
    ensures PrintableMember(InstructionMember())
  {
    hide PrintMember, PrintableMember, Name, PlainText;
    PlainTextPrints(OfProcessor(InstructionSet), "x86-64");
    InstructionLiteral();
    assert [','] + ("\"" + Name(OfProcessor(InstructionSet)) + "\":\"" + "x86-64" + "\"")
        == ("," + "\"" + Name(OfProcessor(InstructionSet)) + "\":\"") + "x86-64" + "\"";
  }

  lemma InstructionLiteral()
    ensures "," + "\"" + Name(OfProcessor(InstructionSet)) + "\":\"" == ",\"InstructionSet\":\""
  {
  }

  function ProcessorLead(p: Processor): seq<Member> {
    ResourceLead(PROCESSOR_SCHEMA, StateName(p)) + [ArchitectureMember()] + [InstructionMember()]
  }

  function ProcessorLeadText(p: Processor): string {
    ResourceLeadText(PROCESSOR_SCHEMA, StateName(p))
    + (",\"ProcessorArchitecture\":\"" + "x86" + "\"")
    + (",\"InstructionSet\":\"" + "x86-64" + "\"")
  }

  lemma ProcessorLeadPrints(p: Processor)
    ensures ProcessorLeadText(p) == ['{'] + PrintMembers(ProcessorLead(p))
    ensures AllPrintable(ProcessorLead(p)) && ProcessorLead(p) != []
    ensures |PrintMembers(ProcessorLead(p))| == if p.enabled then 143 else 144
  {
    hide PrintMembers, PrintMember, PrintableMember, PlainName, ResourceLeadText, ArchitectureMember, InstructionMember, StateName;
    ProcessorLeadPlain(p);
    ResourceLeadPrints(PROCESSOR_SCHEMA, StateName(p));
    ArchitecturePrints();
    InstructionPrints();
    var lead := ResourceLead(PROCESSOR_SCHEMA, StateName(p));
    PrintMembersSnoc(lead, ArchitectureMember());
    PrintMembersSnoc(lead + [ArchitectureMember()], InstructionMember());
  }

  function ProcessorTypeOption(p: Processor): Option<string> {
    if p.processorType.Some? then Some(p.processorType.value) else None
  }

  function ProcessorTexts(p: Processor): seq<Member> {
    ProcessorLead(p)
    + TextMember(OfProcessor(ProcessorType), ProcessorTypeOption(p))
    + TextMember(OfProcessor(Socket), Some(p.socket))
    + TextMember(OfResource(DisplayName), Some(p.socket))
    + TextMember(OfSystem(Manufacturer), Some(p.manufacturer))
    + TextMember(OfSystem(Model), Some(p.model))
    + TextMember(OfSystem(SerialNumber), Some(p.serialNumber))
    + TextMember(OfResource(PartNumber), Some(p.partNumber))
  }

  function ProcessorNumbers(p: Processor): seq<Member> {
    ProcessorTexts(p)
    + NumberMember(OfSpeed(MaxSpeed), p.maxSpeedMhz)
    + NumberMember(OfSpeed(OperatingSpeed), p.operatingSpeedMhz)
    + NumberMember(OfSpeed(TotalCores), p.totalCores)
    + NumberMember(OfSpeed(TotalEnabledCores), p.totalEnabledCores)
    + NumberMember(OfSpeed(TotalThreads), p.totalThreads)
  }

  function IdMember(id: string): Member {
    Member(Name(OfId(ProcessorId)), Obj([PlainText(OfId(IdentificationRegisters), id)]))
  }

  function ProcessorMembers(p: Processor): seq<Member> {
    if p.idRegisters == [] then ProcessorNumbers(p) else ProcessorNumbers(p) + [IdMember(p.idRegisters)]
  }

  lemma IdPrints(id: IdText)
    ensures [','] + PrintMember(IdMember(id)) == ",\"ProcessorId\":{" + "\"IdentificationRegisters\":\"" + id + "\"}"
    ensures |PrintMember(IdMember(id))| == 44 + |id| && PrintableMember(IdMember(id))
  {
    hide PrintMembers, PrintMember, PrintableMember, Name, PlainText;
    var inner := PlainText(OfId(IdentificationRegisters), id);
    PlainTextPrints(OfId(IdentificationRegisters), id);
    ObjPrints(OfId(ProcessorId), [inner]);
    PrintOne(inner);
    IdLiteral();
    RegistersLiteral();
    assert [','] + ("\"" + Name(OfId(ProcessorId)) + "\":{" + ("\"" + Name(OfId(IdentificationRegisters)) + "\":\"" + id + "\"") + "}")
        == ("," + "\"" + Name(OfId(ProcessorId)) + "\":{") + ("\"" + Name(OfId(IdentificationRegisters)) + "\":\"") + id + "\"}";
  }

  lemma IdLiteral()
    ensures "," + "\"" + Name(OfId(ProcessorId)) + "\":{" == ",\"ProcessorId\":{"
  {
  }

  lemma RegistersLiteral()
    ensures "\"" + Name(OfId(IdentificationRegisters)) + "\":\"" == "\"IdentificationRegisters\":\""
  {
  }

  function ProcessorTextCost(p: Processor): nat {
    TextCost(OfProcessor(ProcessorType), ProcessorTypeOption(p))
    + TextCost(OfProcessor(Socket), Some(p.socket)) + TextCost(OfResource(DisplayName), Some(p.socket))
    + TextCost(OfSystem(Manufacturer), Some(p.manufacturer)) + TextCost(OfSystem(Model), Some(p.model))
    + TextCost(OfSystem(SerialNumber), Some(p.serialNumber)) + TextCost(OfResource(PartNumber), Some(p.partNumber))
  }

  function ProcessorNumberCost(p: Processor): nat {
    NumberCost(OfSpeed(MaxSpeed), p.maxSpeedMhz) + NumberCost(OfSpeed(OperatingSpeed), p.operatingSpeedMhz)
    + NumberCost(OfSpeed(TotalCores), p.totalCores) + NumberCost(OfSpeed(TotalEnabledCores), p.totalEnabledCores)
    + NumberCost(OfSpeed(TotalThreads), p.totalThreads)
  }

  /** The length of the whole body of a processor. */
  function ProcessorCost(p: Processor): nat {
    (if p.enabled then 145 else 146) + ProcessorTextCost(p) + ProcessorNumberCost(p)
    + if p.idRegisters == [] then 0 else 45 + |p.idRegisters|
  }

  lemma ProcessorTextsAdd(p: Processor)
    ensures |PrintMembers(ProcessorTexts(p))| == (if p.enabled then 143 else 144) + ProcessorTextCost(p)
    ensures AllPrintable(ProcessorTexts(p)) && ProcessorTexts(p) != []
  {
    hide PrintMembers, TextMember, Name, AllPrintable, ProcessorLead, TextCost;
    ProcessorLeadPrints(p);
    var m0 := ProcessorLead(p);
    TextAdds(m0, OfProcessor(ProcessorType), ProcessorTypeOption(p));
    var m1 := m0 + TextMember(OfProcessor(ProcessorType), ProcessorTypeOption(p));
    TextAdds(m1, OfProcessor(Socket), Some(p.socket));
    var m2 := m1 + TextMember(OfProcessor(Socket), Some(p.socket));
    TextAdds(m2, OfResource(DisplayName), Some(p.socket));
    var m3 := m2 + TextMember(OfResource(DisplayName), Some(p.socket));
    TextAdds(m3, OfSystem(Manufacturer), Some(p.manufacturer));
    var m4 := m3 + TextMember(OfSystem(Manufacturer), Some(p.manufacturer));
    TextAdds(m4, OfSystem(Model), Some(p.model));
    var m5 := m4 + TextMember(OfSystem(Model), Some(p.model));
    TextAdds(m5, OfSystem(SerialNumber), Some(p.serialNumber));
    var m6 := m5 + TextMember(OfSystem(SerialNumber), Some(p.serialNumber));
    TextAdds(m6, OfResource(PartNumber), Some(p.partNumber));
  }

  lemma ProcessorLength(p: Processor)
    ensures |Print(Obj(ProcessorMembers(p)))| == ProcessorCost(p)
    ensures AllPrintable(ProcessorMembers(p))
  {
    hide PrintMembers, PrintMember, PrintableMember, Print, NumberMember, Name, AllPrintable, IdMember;
    hide ProcessorTexts, ProcessorTextCost, NumberCost;
    ProcessorTextsAdd(p);
    var m0 := ProcessorTexts(p);
    NumberAdds(m0, OfSpeed(MaxSpeed), p.maxSpeedMhz);
    var m1 := m0 + NumberMember(OfSpeed(MaxSpeed), p.maxSpeedMhz);
    NumberAdds(m1, OfSpeed(OperatingSpeed), p.operatingSpeedMhz);
    var m2 := m1 + NumberMember(OfSpeed(OperatingSpeed), p.operatingSpeedMhz);
    NumberAdds(m2, OfSpeed(TotalCores), p.totalCores);
    var m3 := m2 + NumberMember(OfSpeed(TotalCores), p.totalCores);
    NumberAdds(m3, OfSpeed(TotalEnabledCores), p.totalEnabledCores);
    var m4 := m3 + NumberMember(OfSpeed(TotalEnabledCores), p.totalEnabledCores);
    NumberAdds(m4, OfSpeed(TotalThreads), p.totalThreads);
    IdPrints(p.idRegisters);
    MemberAdds(ProcessorNumbers(p), IdMember(p.idRegisters));
    ObjWidth(ProcessorMembers(p));
  }

  /**
   * The POST body of a processor reads back as its properties if and only if their text
   * fits: seven strings can outgrow the buffer, and then an append is dropped unnoticed.
   */
  method BuildProcessorPost(p: Processor) returns (json: string)
    ensures |json| < JSON_MAX
    ensures Parse(json) == Some(Obj(ProcessorMembers(p))) <==> ProcessorCost(p) < JSON_MAX
  {
    hide Shortened, Escape, Clean, PrintMembers, PrintMember, Print, Parse, PlainName, TextMember, NumberMember, ProcessorLead, ProcessorLeadText;
    hide IdMember, ProcessorCost, TextCost;
    ProcessorLeadPrints(p);
    ProcessorLength(p);
    var body := new Body(ProcessorLeadText(p), ProcessorLead(p));
    NoText(OfProcessor(ProcessorType));
    if p.processorType.Some? {
      var _ := body.AppendJsonString(OfProcessor(ProcessorType), Some(p.processorType.value));
    }
    var _ := body.AppendJsonString(OfProcessor(Socket), Some(p.socket));
    var _ := body.AppendJsonString(OfResource(DisplayName), Some(p.socket));
    var _ := body.AppendJsonString(OfSystem(Manufacturer), Some(p.manufacturer));
    var _ := body.AppendJsonString(OfSystem(Model), Some(p.model));
    var _ := body.AppendJsonString(OfSystem(SerialNumber), Some(p.serialNumber));
    var _ := body.AppendJsonString(OfResource(PartNumber), Some(p.partNumber));
    assert body.members == ProcessorTexts(p);
    body.AppendJsonNumber(OfSpeed(MaxSpeed), p.maxSpeedMhz);
    body.AppendJsonNumber(OfSpeed(OperatingSpeed), p.operatingSpeedMhz);
    body.AppendJsonNumber(OfSpeed(TotalCores), p.totalCores);
    body.AppendJsonNumber(OfSpeed(TotalEnabledCores), p.totalEnabledCores);
    body.AppendJsonNumber(OfSpeed(TotalThreads), p.totalThreads);
    if p.idRegisters != [] {
      IdPrints(p.idRegisters);
      body.AppendPrinted(80, ",\"ProcessorId\":{" + "\"IdentificationRegisters\":\"" + p.idRegisters + "\"}", IdMember(p.idRegisters));
    }
    assert body.members == ProcessorMembers(p);
    json := body.Close();
    BodyReadsBack(json, ProcessorMembers(p));
  }

  lemma {:induction false} QuotesDouble(n: nat)
    ensures |Escape(Clean(seq(n, _ => '"')))| == 2 * n
    decreases n
  {
    var s := seq(n, _ => '"');
    assert Clean(s) == s;
    if n > 0 {
      assert s[1..] == seq(n - 1, _ => '"');
      assert Clean(s[1..]) == s[1..];
      QuotesDouble(n - 1);
    }
  }

  lemma ProcessorTextWidths()
    ensures |Name(OfProcessor(Socket))| == 6 && |Name(OfResource(DisplayName))| == 4 && |Name(OfResource(PartNumber))| == 10
    ensures |Name(OfSpeed(MaxSpeed))| == 11 && |Name(OfSpeed(OperatingSpeed))| == 17
  {
  }

  /** Six reported strings of 63 quotes and two speeds already do not fit. */
  lemma ProcessorCanOverflow()
    ensures exists p: Processor :: ProcessorCost(p) >= JSON_MAX
  {
    hide Name, PrintNat, Escape, Clean;
    var q: string := seq(63, _ => '"');
    QuotesDouble(63);
    SystemNameWidths();
    ProcessorTextWidths();
    var p := Processor(q, q, q, q, q, [], None, 3100, 2400, 0, 0, 0, true);
    assert ProcessorTextCost(p) == 6 * 132 + 49;
    assert ProcessorCost(p) >= JSON_MAX;
  }
}
