/**
 * The NIC's IPv4 policy: reported to the BMC as an EthernetInterface, read back from it,
 * and applied to the one NIC the driver claims.
 */
module NetPolicy {

  import opened Bytes
  import opened DevicePath

  // ----- the stored policy

  /** A dotted-quad field of the EthCfg variable, empty when unset. */
  type Ip4Text = s: string | |s| < 16

  datatype Config = Config(
    dhcp: bool,
    mac: string,
    address: Ip4Text,
    mask: Ip4Text,
    gateway: Ip4Text,
    dns1: Ip4Text,
    dns2: Ip4Text)

  /** The first element of IPv4StaticAddresses, as far as it is read. */
  datatype AddressEntry = AddressEntry(address: Option<string>, mask: Option<string>, gateway: Option<string>)

  /** The managed properties of an EthernetInterface resource. */
  datatype Resource = Resource(
    mac: Option<string>,
    dhcp: Option<bool>,
    addresses: seq<AddressEntry>,
    nameServers: seq<string>)

  // ----- reporting

  /** FetchStringProperty: an empty string is no property. */
  function Fetch(s: string): Option<string> {
    if s == [] then None else Some(s)
  }

  /** BuildEthernetInterfacePayload, with every question published. */
  method BuildPayload(c: Config) returns (r: Resource)
    ensures r == Report(c)
  {
    r := Resource(None, None, [], []);
    var mac := Fetch(c.mac);
    if mac.Some? {
      r := r.(mac := mac);
    }
    r := r.(dhcp := Some(c.dhcp));
    var address, mask, gateway := Fetch(c.address), Fetch(c.mask), Fetch(c.gateway);
    if address.Some? {
      var entry := AddressEntry(address, None, None);
      if mask.Some? {
        entry := entry.(mask := mask);
      }
      if gateway.Some? {
        entry := entry.(gateway := gateway);
      }
      r := r.(addresses := r.addresses + [entry]);
    }
    var dns1, dns2 := Fetch(c.dns1), Fetch(c.dns2);
    if dns1.Some? {
      r := r.(nameServers := r.nameServers + [dns1.value]);
    }
    if dns2.Some? {
      r := r.(nameServers := r.nameServers + [dns2.value]);
    }
  }

  function Present(s: string): seq<string> {
    if s == [] then [] else [s]
  }

  function Report(c: Config): Resource {
    Resource(
      Fetch(c.mac),
      Some(c.dhcp),
      if c.address == [] then [] else [AddressEntry(Some(c.address), Fetch(c.mask), Fetch(c.gateway))],
      Present(c.dns1) + Present(c.dns2))
  }

  // ----- consuming

  /** A question takes a value that fits it; no value clears it. */
  function Apply(was: Ip4Text, value: Option<string>): Ip4Text {
    if value.None? then "" else if |value.value| < 16 then value.value else was
  }

  /** The stored policy, updated question by question. */
  class Store {
    var config: Config

    method ConsumeStaticAddresses(entries: seq<AddressEntry>)
      modifies this
      ensures config == Addressed(old(config), entries)
    {
      if entries == [] {
        config := config.(address := Apply(config.address, None));
        config := config.(mask := Apply(config.mask, None));
        config := config.(gateway := Apply(config.gateway, None));
        return;
      }
      config := config.(address := Apply(config.address, entries[0].address));
      config := config.(mask := Apply(config.mask, entries[0].mask));
      config := config.(gateway := Apply(config.gateway, entries[0].gateway));
    }

    /**
     * RedfishConsumeResourceCommon. An unchanged ETag ends it at once. emptyIsAbsent says
     * whether the converter hands an empty StaticNameServers array over as no array.
     */
    method Consume(r: Resource, sameEtag: bool, emptyIsAbsent: bool)
      modifies this
      ensures config == if sameEtag then old(config) else Consumed(old(config), r, emptyIsAbsent)
    {
      if sameEtag {
        return;
      }
      if r.dhcp.Some? {
        config := config.(dhcp := r.dhcp.value);
      }
      ConsumeStaticAddresses(r.addresses);
      if r.nameServers != [] || !emptyIsAbsent {
        config := config.(dns1 := Apply(config.dns1, Entry(r.nameServers, 0)));
        config := config.(dns2 := Apply(config.dns2, Entry(r.nameServers, 1)));
      }
    }
  }

  function Entry(servers: seq<string>, i: nat): Option<string> {
    if i < |servers| then Some(servers[i]) else None
  }

  function Addressed(c: Config, entries: seq<AddressEntry>): Config {
    var e := if entries == [] then AddressEntry(None, None, None) else entries[0];
    c.(address := Apply(c.address, e.address), mask := Apply(c.mask, e.mask), gateway := Apply(c.gateway, e.gateway))
  }

  function Consumed(c: Config, r: Resource, emptyIsAbsent: bool): Config {
    var d := if r.dhcp.Some? then c.(dhcp := r.dhcp.value) else c;
    var a := Addressed(d, r.addresses);
    if r.nameServers == [] && emptyIsAbsent then a
    else a.(dns1 := Apply(a.dns1, Entry(r.nameServers, 0)), dns2 := Apply(a.dns2, Entry(r.nameServers, 1)))
  }

  // ----- report and read back

  /** The policy without what has no effect: no mask or gateway without an address, no gap before a DNS server. */
  function Normal(c: Config): Config {
    var a := if c.address == [] then c.(mask := "", gateway := "") else c;
    if c.dns1 == [] then a.(dns1 := c.dns2, dns2 := "") else a
  }

  /** Reading back one's own report gives the normal form, whatever the converter does with empty arrays. */
  lemma ReportReadBack(c: Config, emptyIsAbsent: bool)
    ensures Consumed(c, Report(c), emptyIsAbsent) == Normal(c)
  {
    assert Present(c.dns1) + Present(c.dns2) == [] <==> c.dns1 == [] && c.dns2 == [];
  }

  /** Once normal, always normal; and a report says no more than the normal form does. */
  lemma NormalIsStable(c: Config, emptyIsAbsent: bool)
    ensures Normal(Normal(c)) == Normal(c)
    ensures Report(Normal(c)) == Report(c)
    ensures Consumed(Normal(c), Report(Normal(c)), emptyIsAbsent) == Normal(c)
  {
    assert Present(c.dns2) + [] == [] + Present(c.dns2);
    ReportReadBack(Normal(c), emptyIsAbsent);
  }

  /**
   * What a report says: the MAC address and the DHCP switch, one address entry with mask
   * and gateway under an address, and the name servers that are set, in order.
   */
  lemma ReportSays(c: Config)
    ensures var r := Report(c);
            && r.mac == (if c.mac == "" then None else Some(c.mac)) && r.dhcp == Some(c.dhcp)
            && |r.addresses| == (if c.address == "" then 0 else 1)
            && (c.address != "" ==>
                  && r.addresses[0].address == Some(c.address)
                  && (c.mask != "" ==> r.addresses[0].mask == Some(c.mask))
                  && (c.mask == "" ==> r.addresses[0].mask == None)
                  && (c.gateway != "" ==> r.addresses[0].gateway == Some(c.gateway))
                  && (c.gateway == "" ==> r.addresses[0].gateway == None))
            && (c.dns1 != "" && c.dns2 != "" ==> r.nameServers == [c.dns1, c.dns2])
            && (c.dns1 != "" && c.dns2 == "" ==> r.nameServers == [c.dns1])
            && (c.dns1 == "" && c.dns2 != "" ==> r.nameServers == [c.dns2])
            && (c.dns1 == "" && c.dns2 == "" ==> r.nameServers == [])
  {
  }

  /** A question takes a value of up to 15 characters, keeps its old one for a longer value, and no value clears it. */
  lemma QuestionsTake(c: Config, r: Resource, emptyIsAbsent: bool, e: AddressEntry)
    requires r.addresses != [] && r.addresses[0] == e
    ensures var d := Consumed(c, r, emptyIsAbsent);
            && Takes(d.address, c.address, e.address) && Takes(d.mask, c.mask, e.mask)
            && Takes(d.gateway, c.gateway, e.gateway)
            && (r.nameServers != [] ==> Takes(d.dns1, c.dns1, Some(r.nameServers[0])))
            && (|r.nameServers| > 1 ==> Takes(d.dns2, c.dns2, Some(r.nameServers[1])))
            && (|r.nameServers| == 1 ==> d.dns2 == "")
            && d.dhcp == (if r.dhcp.Some? then r.dhcp.value else c.dhcp)
  {
  }

  predicate Takes(now: string, was: string, value: Option<string>) {
    match value
    case None => now == ""
    case Some(s) => now == if |s| <= 15 then s else was
  }

  /** The MAC address is reported only: no resource changes it. */
  lemma MacIsNeverConsumed(c: Config, r: Resource, emptyIsAbsent: bool)
    ensures Consumed(c, r, emptyIsAbsent).mac == c.mac
  {
  }

  /**
   * A host with policy d that consumes the policy c another left on the BMC takes over c's
   * normal form if and only if the name servers come across: c has some, or an empty array
   * is seen as such, or d has none to clear.
   */
  lemma PolicyTransfers(c: Config, d: Config, emptyIsAbsent: bool)
    ensures Consumed(d, Report(c), emptyIsAbsent) == Normal(c).(mac := d.mac)
       <==> c.dns1 != [] || c.dns2 != [] || !emptyIsAbsent || (d.dns1 == [] && d.dns2 == [])
  {
    assert Present(c.dns1) + Present(c.dns2) == [] <==> c.dns1 == [] && c.dns2 == [];
  }

  // ----- applying

  type Ip4 = U32

  datatype Policy = Static | Dhcp

  /** A SetData call. */
  datatype Call =
    | SetPolicy(policy: Policy)
    | SetManualAddress(ip: Ip4, mask: Ip4)
    | SetGateway(ip: Ip4)
    | SetDnsServers(servers: seq<Ip4>)

  datatype Outcome = Done | Refused | Later(arrives: bool)

  /** The network library, and the answers of the services. */
  datatype Net = Net(
    parse: string -> Option<Ip4>,
    maskLength: Ip4 -> nat,
    unicast: (Ip4, Ip4) -> bool,
    hasProtocol: bool,
    policyAccepted: bool,
    eventsCreated: bool,
    notifyRegistered: bool,
    manualAddress: Outcome,
    gatewayAccepted: bool,
    serversAccepted: bool)

  const IP4_MASK_NUM := 33

  /** ParseIp4Field: an empty field is not an address. */
  function ParseField(net: Net, s: string): Option<Ip4> {
    if s == [] then None else net.parse(s)
  }

  predicate ValidStatic(net: Net, ip: Ip4, mask: Ip4) {
    0 < net.maskLength(mask) < IP4_MASK_NUM && net.unicast(ip, mask)
  }

  /** Calls made once the address is in: the gateway if usable, the DNS servers that parse. */
  function OptionalCalls(c: Config, net: Net, mask: Ip4): seq<Call> {
    var gateway := ParseField(net, c.gateway);
    var servers := Servers(net, c.dns1) + Servers(net, c.dns2);
    (if gateway.Some? && net.unicast(gateway.value, mask) then [SetGateway(gateway.value)] else [])
    + if servers != [] then [SetDnsServers(servers)] else []
  }

  function Servers(net: Net, s: string): seq<Ip4> {
    var ip := ParseField(net, s);
    if ip.Some? then [ip.value] else []
  }

  /** The SetData calls for a policy, in order. */
  function Calls(c: Config, net: Net): seq<Call> {
    if !net.hasProtocol then []
    else if c.dhcp then [SetPolicy(Dhcp)]
    else
      var ip, mask := ParseField(net, c.address), ParseField(net, c.mask);
      if ip.None? || mask.None? || !ValidStatic(net, ip.value, mask.value) then []
      else
        [SetPolicy(Static)]
        + if !net.policyAccepted || !net.eventsCreated || !net.notifyRegistered then []
          else [SetManualAddress(ip.value, mask.value)]
               + if AddressIn(net.manualAddress) then OptionalCalls(c, net, mask.value) else []
  }

  predicate AddressIn(o: Outcome) {
    o.Done? || (o.Later? && o.arrives)
  }

  /** ApplyStaticConfig. */
  method ApplyStaticConfig(c: Config, net: Net) returns (calls: seq<Call>)
    requires net.hasProtocol && !c.dhcp
    ensures calls == Calls(c, net)
  {
    calls := [];
    var ip, mask := ParseField(net, c.address), ParseField(net, c.mask);
    if ip.None? || mask.None? {
      return;
    }
    var length := net.maskLength(mask.value);
    if length == 0 || length >= IP4_MASK_NUM || !net.unicast(ip.value, mask.value) {
      return;
    }
    calls := calls + [SetPolicy(Static)];
    if !net.policyAccepted || !net.eventsCreated || !net.notifyRegistered {
      return;
    }
    calls := calls + [SetManualAddress(ip.value, mask.value)];
    var success := net.manualAddress.Done?;
    if net.manualAddress.Later? {
      success := net.manualAddress.arrives;
    }
    if !success {
      return;
    }
    ghost var before := calls;
    var gateway := ParseField(net, c.gateway);
    if gateway.Some? && net.unicast(gateway.value, mask.value) {
      calls := calls + [SetGateway(gateway.value)];
    }
    var dns: array<Ip4> := new Ip4[2](_ => 0);
    var dnsCount := 0;
    var server := ParseField(net, c.dns1);
    if server.Some? {
      dns[dnsCount] := server.value;
      dnsCount := dnsCount + 1;
    }
    assert dns[..dnsCount] == Servers(net, c.dns1);
    server := ParseField(net, c.dns2);
    if server.Some? {
      dns[dnsCount] := server.value;
      dnsCount := dnsCount + 1;
    }
    assert dns[..dnsCount] == Servers(net, c.dns1) + Servers(net, c.dns2);
    if dnsCount > 0 {
      calls := calls + [SetDnsServers(dns[..dnsCount])];
    }
    assert calls == before + OptionalCalls(c, net, mask.value);
  }

  /** ApplyConfig: the calls it makes; none when DHCP is off and no address is set. */
  method ApplyConfig(stored: Option<Config>, net: Net) returns (calls: seq<Call>)
    ensures calls == if stored.None? then [] else Calls(stored.value, net)
  {
    if stored.None? {
      return [];
    }
    var c := stored.value;
    if !c.dhcp && c.address == [] {
      return [];
    }
    if !net.hasProtocol {
      return [];
    }
    if c.dhcp {
      return [SetPolicy(Dhcp)];
    }
    calls := ApplyStaticConfig(c, net);
  }

  /** What reporting and reading back drops never reaches the NIC: the calls are the same before and after. */
  lemma PolicyPreserved(c: Config, net: Net)
    ensures Calls(Normal(c), net) == Calls(c, net)
  {
    var n := Normal(c);
    assert Servers(net, n.dns1) + Servers(net, n.dns2) == Servers(net, c.dns1) + Servers(net, c.dns2);
  }

  /** The whole loop: report, read back, apply. */
  lemma ReadBackAppliesTheSame(c: Config, emptyIsAbsent: bool, net: Net)
    ensures Calls(Consumed(c, Report(c), emptyIsAbsent), net) == Calls(c, net)
  {
    ReportReadBack(c, emptyIsAbsent);
    PolicyPreserved(c, net);
  }

  // ----- what the NIC keeps

  datatype Nic = Nic(policy: Policy, address: Option<(Ip4, Ip4)>, gateway: Option<Ip4>, servers: seq<Ip4>)

  /** What a call changes, if it is accepted. */
  function Accept(nic: Nic, call: Call, net: Net): Nic {
    match call
    case SetPolicy(p) => if net.policyAccepted then nic.(policy := p) else nic
    case SetManualAddress(ip, mask) => if AddressIn(net.manualAddress) then nic.(address := Some((ip, mask))) else nic
    case SetGateway(ip) => if net.gatewayAccepted then nic.(gateway := Some(ip)) else nic
    case SetDnsServers(servers) => if net.serversAccepted then nic.(servers := servers) else nic
  }

  /** The NIC after the calls that were accepted. */
  function After(nic: Nic, calls: seq<Call>, net: Net): Nic
    decreases |calls|
  {
    if calls == [] then nic else After(Accept(nic, calls[0], net), calls[1..], net)
  }

  /** A static policy that is valid, whose address gets in. */
  predicate StaticTakes(c: Config, net: Net) {
    var ip, mask := ParseField(net, c.address), ParseField(net, c.mask);
    && ip.Some? && mask.Some? && ValidStatic(net, ip.value, mask.value)
    && net.policyAccepted && net.eventsCreated && net.notifyRegistered && AddressIn(net.manualAddress)
  }

  /** A static policy reaches the point where the NIC is switched to it. */
  predicate StaticSwitches(c: Config, net: Net) {
    var ip, mask := ParseField(net, c.address), ParseField(net, c.mask);
    && ip.Some? && mask.Some? && ValidStatic(net, ip.value, mask.value) && net.policyAccepted
  }

  /**
   * A static policy that does not take leaves the NIC as it was if and only if it never got
   * as far as switching the policy, or the NIC was static already: a manual address that is
   * refused later does not undo the switch.
   */
  lemma FailedStaticKeepsNic(nic: Nic, c: Config, net: Net)
    requires net.hasProtocol && !c.dhcp && !StaticTakes(c, net)
    ensures After(nic, Calls(c, net), net) == nic <==> !StaticSwitches(c, net) || nic.policy == Static
  {
    var calls := Calls(c, net);
    var switched := if net.policyAccepted then nic.(policy := Static) else nic;
    if calls != [] {
      assert calls[0] == SetPolicy(Static);
      assert After(nic, calls, net) == After(switched, calls[1..], net);
      if |calls| == 2 {
        assert calls[1..] == [calls[1]] && calls[1].SetManualAddress?;
        assert After(switched, [calls[1]], net) == After(switched, [], net);
      }
      assert After(nic, calls, net) == switched;
    }
  }

  /**
   * A NIC is asked to go static exactly for a policy without DHCP whose address and mask
   * are addresses, the mask one of 1 to 32 leading ones and the address unicast under it.
   */
  lemma SwitchesExactly(c: Config, net: Net)
    ensures SetPolicy(Static) in Calls(c, net) <==>
            && net.hasProtocol && !c.dhcp && c.address != "" && c.mask != ""
            && net.parse(c.address).Some? && net.parse(c.mask).Some?
            && 1 <= net.maskLength(net.parse(c.mask).value) <= 32
            && net.unicast(net.parse(c.address).value, net.parse(c.mask).value)
  {
    hide OptionalCalls;
    var calls := Calls(c, net);
    assert calls != [] ==> calls[0] in calls;
  }

  /** A DHCP policy switches the NIC to DHCP if that is accepted, and touches nothing else. */
  lemma DhcpTakesEffect(nic: Nic, c: Config, net: Net)
    requires net.hasProtocol && c.dhcp
    ensures After(nic, Calls(c, net), net) ==
            Nic(if net.policyAccepted then Dhcp else nic.policy, nic.address, nic.gateway, nic.servers)
  {
    AfterOne(nic, SetPolicy(Dhcp), net);
  }

  /** Without the protocol, or without DHCP and without an address, nothing is touched. */
  lemma UnmanagedKeepsNic(nic: Nic, c: Config, net: Net)
    requires !net.hasProtocol || (!c.dhcp && c.address == "")
    ensures After(nic, Calls(c, net), net) == nic
  {
  }

  /** The name servers that two fields give, in order; none when neither does. */
  function Both(first: Option<Ip4>, second: Option<Ip4>): seq<Ip4> {
    match (first, second)
    case (Some(a), Some(b)) => [a, b]
    case (Some(a), None) => [a]
    case (None, Some(b)) => [b]
    case (None, None) => []
  }

  /**
   * A static policy that takes gives the NIC exactly its address and mask; its gateway if
   * that is a unicast address under the mask, and those of its two name servers that are
   * addresses, in order; what is not given, or refused, stays as it was.
   */
  lemma StaticTakesEffect(nic: Nic, c: Config, net: Net)
    requires net.hasProtocol && !c.dhcp && StaticTakes(c, net)
    ensures
      var ip, mask := net.parse(c.address).value, net.parse(c.mask).value;
      var gateway := if c.gateway == "" then None else net.parse(c.gateway);
      var servers := Both(if c.dns1 == "" then None else net.parse(c.dns1),
                          if c.dns2 == "" then None else net.parse(c.dns2));
      After(nic, Calls(c, net), net) ==
      Nic(Static, Some((ip, mask)),
          if gateway.Some? && net.unicast(gateway.value, mask) && net.gatewayAccepted then gateway else nic.gateway,
          if servers != [] && net.serversAccepted then servers else nic.servers)
  {
    var ip, mask := net.parse(c.address).value, net.parse(c.mask).value;
    var more := OptionalCalls(c, net, mask);
    OptionalCallsSet(Nic(Static, Some((ip, mask)), nic.gateway, nic.servers), c, net, mask);
    hide OptionalCalls, ValidStatic;
    assert Calls(c, net) == [SetPolicy(Static)] + ([SetManualAddress(ip, mask)] + more);
    AfterTwo(nic, SetPolicy(Static), SetManualAddress(ip, mask), more, net);
  }

  lemma AfterOne(nic: Nic, a: Call, net: Net)
    ensures After(nic, [a], net) == Accept(nic, a, net)
  {
    hide Accept;
    assert [a][1..] == [];
  }

  lemma AfterTwo(nic: Nic, a: Call, b: Call, more: seq<Call>, net: Net)
    ensures After(nic, [a] + ([b] + more), net) == After(Accept(Accept(nic, a, net), b, net), more, net)
  {
    hide Accept;
    var calls := [a] + ([b] + more);
    assert calls[0] == a && calls[1..] == [b] + more && calls[1..][1..] == more;
  }

  lemma OptionalCallsSet(nic: Nic, c: Config, net: Net, mask: Ip4)
    ensures
      var gateway := ParseField(net, c.gateway);
      var servers := Both(ParseField(net, c.dns1), ParseField(net, c.dns2));
      After(nic, OptionalCalls(c, net, mask), net) ==
      Nic(nic.policy, nic.address,
          if gateway.Some? && net.unicast(gateway.value, mask) && net.gatewayAccepted then gateway else nic.gateway,
          if servers != [] && net.serversAccepted then servers else nic.servers)
  {
    var gateway := ParseField(net, c.gateway);
    var servers := Both(ParseField(net, c.dns1), ParseField(net, c.dns2));
    assert Servers(net, c.dns1) + Servers(net, c.dns2) == servers;
    var a := if gateway.Some? && net.unicast(gateway.value, mask) then [SetGateway(gateway.value)] else [];
    var b := if servers != [] then [SetDnsServers(servers)] else [];
    assert OptionalCalls(c, net, mask) == a + b;
    AfterAppend(nic, a, b, net);
    if a != [] {
      AfterOne(nic, a[0], net);
    }
    if b != [] {
      AfterOne(After(nic, a, net), b[0], net);
    }
  }

  lemma {:induction false} AfterAppend(nic: Nic, a: seq<Call>, b: seq<Call>, net: Net)
    ensures After(nic, a + b, net) == After(After(nic, a, net), b, net)
    decreases |a|
  {
    hide Accept;
    if a == [] {
      assert a + b == b;
    } else {
      assert (a + b)[0] == a[0] && (a + b)[1..] == a[1..] + b;
      AfterAppend(Accept(nic, a[0], net), a[1..], b, net);
    }
  }

  // ----- the claimed NIC

  /** A handle that Ip4Config2 was installed on. */
  datatype NicHandle = NicHandle(handle: nat, path: Option<seq<Node>>)

  predicate Claimable(n: NicHandle) {
    n.path.Some? && IsNonUsbNic(n.path.value)
  }

  /** The first handle that may be claimed, as a list of at most one. */
  function Claim(ns: seq<NicHandle>): (r: seq<nat>)
    ensures |r| <= 1
  {
    if ns == [] then [] else if Claimable(ns[0]) then [ns[0].handle] else Claim(ns[1..])
  }

  /** It is that of a claimable NIC with none before it, and there is one unless none is claimable. */
  lemma {:induction false} ClaimIsFirst(ns: seq<NicHandle>) returns (k: nat)
    ensures k <= |ns| && forall i :: 0 <= i < k ==> !Claimable(ns[i])
    ensures k < |ns| ==> Claimable(ns[k]) && Claim(ns) == [ns[k].handle]
    ensures k == |ns| ==> Claim(ns) == []
    decreases |ns|
  {
    k := 0;
    if ns != [] && !Claimable(ns[0]) {
      var j := ClaimIsFirst(ns[1..]);
      k := j + 1;
      forall i | 0 <= i < k ensures !Claimable(ns[i]) {
        assert i > 0 ==> ns[i] == ns[1..][i - 1];
      }
    }
  }

  class EthDriver {
    var nicClaimed: bool
    ghost var configured: seq<nat>

    /** The latch is set exactly when a NIC has been configured. */
    ghost predicate Valid()
      reads this
    {
      nicClaimed <==> configured != []
    }

    constructor ()
      ensures Valid() && configured == []
    {
      nicClaimed := false;
      configured := [];
    }

    /** One notification: the queue of new handles is drained, and at most the first claimable one is configured. */
    method OnIp4Config2Installed(queue: seq<NicHandle>)
      requires Valid()
      modifies this
      ensures Valid()
      ensures configured == if old(configured) != [] then old(configured) else Claim(queue)
    {
      var i := 0;
      assert queue[0..] == queue;
      while i < |queue|
        invariant 0 <= i <= |queue| && Valid()
        invariant old(configured) != [] ==> configured == old(configured)
        invariant old(configured) == [] && configured == [] ==> Claim(queue) == Claim(queue[i..])
        invariant old(configured) == [] && configured != [] ==> Claim(queue) == configured
      {
        var nic := queue[i];
        assert queue[i..][0] == nic && queue[i..][1..] == queue[i + 1..];
        i := i + 1;
        if nicClaimed || nic.path.None? {
          continue;
        }
        var hasMac, overUsb := ClassifyNicDevicePath(nic.path.value);
        if overUsb || !hasMac {
          continue;
        }
        nicClaimed := true;
        configured := configured + [nic.handle];
      }
    }
  }

  /** All handles of a sequence of notifications, in order. */
  function AllHandles(queues: seq<seq<NicHandle>>): seq<NicHandle> {
    if queues == [] then [] else queues[0] + AllHandles(queues[1..])
  }

  /** What is configured after a sequence of notifications. */
  function Configured(before: seq<nat>, queues: seq<seq<NicHandle>>): seq<nat>
    decreases |queues|
  {
    if queues == [] then before
    else Configured(if before != [] then before else Claim(queues[0]), queues[1..])
  }

  lemma {:induction false} ClaimAppend(a: seq<NicHandle>, b: seq<NicHandle>)
    ensures Claim(a + b) == if Claim(a) != [] then Claim(a) else Claim(b)
    decreases |a|
  {
    if a == [] {
      assert a + b == b;
    } else {
      assert (a + b)[1..] == a[1..] + b;
      ClaimAppend(a[1..], b);
    }
  }

  /** Over every sequence of notifications, at most one NIC is configured: the first claimable one of all. */
  lemma {:induction false} OneNicForAll(before: seq<nat>, queues: seq<seq<NicHandle>>)
    ensures Configured(before, queues) == if before != [] then before else Claim(AllHandles(queues))
    decreases |queues|
  {
    if queues != [] {
      OneNicForAll(if before != [] then before else Claim(queues[0]), queues[1..]);
      ClaimAppend(queues[0], AllHandles(queues[1..]));
    }
  }

  /** A driver fed with every notification: over its whole life it configures the first claimable NIC of all, or none. */
  method Notify(queues: seq<seq<NicHandle>>) returns (driver: EthDriver)
    ensures fresh(driver) && driver.Valid() && driver.configured == Claim(AllHandles(queues))
  {
    driver := new EthDriver();
    assert queues[0..] == queues;
    for i := 0 to |queues|
      invariant fresh(driver) && driver.Valid()
      invariant Configured([], queues) == Configured(driver.configured, queues[i..])
    {
      assert queues[i..][0] == queues[i] && queues[i..][1..] == queues[i + 1..];
      driver.OnIp4Config2Installed(queues[i]);
    }
    OneNicForAll([], queues);
  }
}
