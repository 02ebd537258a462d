/**
 The site configuration: the fields of internal/config/config.go that routing, firewalling and validation read.
 Texts stay texts, as in the YAML file; the validator and the renderers parse them.
 */
module Config {
  import opened Text

  // Interval and timeout are in seconds.
  datatype HealthCheck = HealthCheck(target: string, interval: int, timeout: int, failures: int)

  datatype Interface = Interface(
    name: string, role: string, device: string, address: string, gateway: string, vlan: int,
    healthCheck: Option<HealthCheck>)
  {
    // A WAN uplink with a gateway: what the monitor, the controller and the FRR renderer each look for.
    predicate IsUplink() {
      role == "wan" && gateway != ""
    }
  }

  datatype DHCPSubnet = DHCPSubnet(
    subnet: string, iface: string, poolStart: string, poolEnd: string, gateway: string, dnsServers: seq<string>)

  datatype DHCPConfig = DHCPConfig(enabled: bool, subnets: seq<DHCPSubnet>)

  datatype DNSConfig = DNSConfig(enabled: bool, forwarders: seq<string>, allowFrom: seq<string>)

  datatype FirewallZone = FirewallZone(name: string, interfaces: seq<string>)

  datatype ForwardRule = ForwardRule(
    from: string, to: string, action: string, protocol: string, port: string, source: string, dest: string)

  datatype InputRule = InputRule(zone: string, action: string, protocol: string, port: string, source: string)

  datatype Firewall = Firewall(
    zones: seq<FirewallZone>, forwardRules: seq<ForwardRule>, inputRules: seq<InputRule>)

  datatype PBRRule = PBRRule(name: string, priority: int, source: string, iface: string)

  datatype SiteConfig = SiteConfig(
    hostname: string, interfaces: seq<Interface>, dhcp: Option<DHCPConfig>, dns: Option<DNSConfig>,
    firewall: Option<Firewall>, ecmpEnabled: bool, pbr: seq<PBRRule>)

  /* The lookup tables that several components build with `m[iface.Name] = iface`: the last entry wins. */

  function LastNamed(ifs: seq<Interface>, name: string): (r: Option<Interface>)
    ensures r.Some? <==> exists i :: 0 <= i < |ifs| && ifs[i].name == name
    ensures r.Some? ==> r.value in ifs && r.value.name == name
    ensures r.Some? ==> exists i :: 0 <= i < |ifs| && ifs[i] == r.value
                                    && forall j :: i < j < |ifs| ==> ifs[j].name != name
  {
    if ifs == [] then None
    else if ifs[|ifs| - 1].name == name then Some(ifs[|ifs| - 1])
    else LastNamed(ifs[..|ifs| - 1], name)
  }

  ghost predicate DistinctNames(ifs: seq<Interface>) {
    forall i, j :: 0 <= i < j < |ifs| ==> ifs[i].name != ifs[j].name
  }

  ghost predicate DistinctDevices(ifs: seq<Interface>) {
    forall i, j :: 0 <= i < j < |ifs| ==> ifs[i].device != ifs[j].device
  }

  lemma LastNameIsNew(ifs: seq<Interface>)
    requires DistinctNames(ifs) && ifs != []
    ensures DistinctNames(ifs[..|ifs| - 1])
    ensures forall f :: f in ifs[..|ifs| - 1] ==> f.name != ifs[|ifs| - 1].name
  {
  }

  lemma LastNamedIsOnly(ifs: seq<Interface>, i: nat)
    requires DistinctNames(ifs) && i < |ifs|
    ensures LastNamed(ifs, ifs[i].name) == Some(ifs[i])
  {
  }

  // ifaceByName, built by the loop that the controller, the FRR renderer and the nftables renderer share.
  method IndexByName(ifs: seq<Interface>) returns (byName: map<string, Interface>)
    ensures forall n :: n in byName <==> LastNamed(ifs, n).Some?
    ensures forall n :: n in byName ==> Some(byName[n]) == LastNamed(ifs, n)
  {
    byName := map[];
    for i := 0 to |ifs|
      invariant forall n :: n in byName <==> LastNamed(ifs[..i], n).Some?
      invariant forall n :: n in byName ==> Some(byName[n]) == LastNamed(ifs[..i], n)
    {
      assert ifs[..i + 1][..i] == ifs[..i];
      byName := byName[ifs[i].name := ifs[i]];
    }
    assert ifs[..|ifs|] == ifs;
  }
}
