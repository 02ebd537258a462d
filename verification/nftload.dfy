/**
 Does nft load the file the renderer writes? Which texts nft takes is a parameter; the question is which configured
 texts reach the file, and where.
 */
module NFTLoading {
  import opened Text
  import opened Config
  import opened NFTables
  import Validate

  predicate Keyword(action: string) {
    action == "accept" || action == "drop"
  }

  predicate PartLoads(rd: Reading, m: Match) {
    match m
    case Iif(d) => rd.takes(DeviceText(d))
    case Oif(d) => rd.takes(DeviceText(d))
    case Protocol(text) => rd.takes(ProtocolText(text))
    case DPort(p, text) => rd.hasPorts(p) && rd.takes(PortText(text))
    case SAddr(a) => rd.takes(AddressText(a))
    case DAddr(a) => rd.takes(AddressText(a))
    case _ => true
  }

  ghost predicate PartsLoad(rd: Reading, parts: seq<Match>) {
    forall m :: m in parts ==> PartLoads(rd, m)
  }

  ghost predicate RuleLoads(rd: Reading, r: NftRule) {
    PartsLoad(rd, r.parts) && Keyword(r.action) && rd.takes(CommentText(r.comment))
  }

  ghost predicate AllLoad(rd: Reading, rules: seq<NftRule>) {
    forall r :: r in rules ==> RuleLoads(rd, r)
  }

  // nft loads a file when it takes every text in it; the fixed rules are fine.
  ghost predicate Loads(rd: Reading, rs: Ruleset) {
    && AllLoad(rd, rs.input) && AllLoad(rd, rs.forward)
    && forall d :: d in rs.masquerade ==> rd.takes(DeviceText(d))
  }

  /* ---------- In terms of the configuration ---------- */

  // A port text is read only beside a protocol, and then the protocol must be one with ports.
  predicate TrafficLoads(rd: Reading, protocol: string, port: string, source: string, dest: string) {
    && (protocol != "" ==> rd.takes(ProtocolText(protocol)))
    && (protocol != "" && port != "" ==> rd.hasPorts(protocol) && rd.takes(PortText(port)))
    && (source != "" ==> rd.takes(AddressText(source)))
    && (dest != "" ==> rd.takes(AddressText(dest)))
  }

  predicate ForwardLoads(rd: Reading, r: ForwardRule) {
    && TrafficLoads(rd, r.protocol, r.port, r.source, r.dest) && Keyword(r.action)
    && rd.takes(CommentText(r.from + " \U{2192} " + r.to + ": " + r.action))
  }

  predicate InputLoads(rd: Reading, r: InputRule) {
    && TrafficLoads(rd, r.protocol, r.port, r.source, "") && Keyword(r.action)
    && rd.takes(CommentText("input from " + r.zone + " zone"))
  }

  predicate DevicesLoad(rd: Reading, devices: seq<string>) {
    forall d :: d in devices ==> rd.takes(DeviceText(d))
  }

  lemma PartsConcat(rd: Reading, a: seq<Match>, b: seq<Match>)
    ensures PartsLoad(rd, a + b) <==> PartsLoad(rd, a) && PartsLoad(rd, b)
  {
    assert forall m :: m in a + b <==> m in a || m in b;
  }

  lemma TwoPartsLoad(rd: Reading, a: Match, b: Match)
    ensures PartsLoad(rd, [a]) <==> PartLoads(rd, a)
    ensures PartsLoad(rd, [a, b]) <==> PartLoads(rd, a) && PartLoads(rd, b)
  {
    assert a in [a] && a in [a, b] && b in [a, b];
  }

  lemma TrafficPartsLoad(rd: Reading, protocol: string, port: string, source: string, dest: string)
    ensures PartsLoad(rd, TrafficParts(protocol, port, source, dest))
       <==> TrafficLoads(rd, protocol, port, source, dest)
  {
    PartsConcat(rd, ServiceParts(protocol, port), AddressParts(source, dest));
    TwoPartsLoad(rd, Protocol(protocol), DPort(protocol, port));
    TwoPartsLoad(rd, SAddr(source), DAddr(dest));
    TwoPartsLoad(rd, DAddr(dest), DAddr(dest));
  }

  lemma ForwardOneLoads(rd: Reading, fromDev: string, toDev: string, r: ForwardRule)
    ensures RuleLoads(rd, ForwardOne(fromDev, toDev, r)) <==>
              rd.takes(DeviceText(fromDev)) && rd.takes(DeviceText(toDev)) && ForwardLoads(rd, r)
  {
    var traffic := TrafficParts(r.protocol, r.port, r.source, r.dest);
    TrafficPartsLoad(rd, r.protocol, r.port, r.source, r.dest);
    PartsConcat(rd, [Iif(fromDev), Oif(toDev)], traffic);
    TwoPartsLoad(rd, Iif(fromDev), Oif(toDev));
  }

  lemma InputOneLoads(rd: Reading, dev: string, r: InputRule)
    ensures RuleLoads(rd, InputOne(dev, r)) <==> rd.takes(DeviceText(dev)) && InputLoads(rd, r)
  {
    TrafficPartsLoad(rd, r.protocol, r.port, r.source, "");
    PartsConcat(rd, [Iif(dev)], TrafficParts(r.protocol, r.port, r.source, ""));
    TwoPartsLoad(rd, Iif(dev), Iif(dev));
  }

  lemma LoadsConcat(rd: Reading, a: seq<NftRule>, b: seq<NftRule>)
    ensures AllLoad(rd, a + b) <==> AllLoad(rd, a) && AllLoad(rd, b)
  {
    assert forall r :: r in a + b <==> r in a || r in b;
  }

  lemma LoadsSnoc(rd: Reading, a: seq<NftRule>, r: NftRule)
    ensures AllLoad(rd, a + [r]) <==> AllLoad(rd, a) && RuleLoads(rd, r)
  {
    LoadsConcat(rd, a, [r]);
    assert r in [r];
  }

  lemma DevicesSnoc(rd: Reading, devices: seq<string>)
    requires devices != []
    ensures DevicesLoad(rd, devices) <==>
              DevicesLoad(rd, devices[..|devices| - 1]) && rd.takes(DeviceText(devices[|devices| - 1]))
  {
    assert forall d :: d in devices <==> d in devices[..|devices| - 1] || d == devices[|devices| - 1];
  }

  lemma {:induction false} RowLoads(rd: Reading, fromDev: string, toDevs: seq<string>, r: ForwardRule)
    ensures AllLoad(rd, ForwardRow(fromDev, toDevs, r)) <==>
              toDevs == [] || (rd.takes(DeviceText(fromDev)) && DevicesLoad(rd, toDevs) && ForwardLoads(rd, r))
  {
    if toDevs != [] {
      var front, last := toDevs[..|toDevs| - 1], toDevs[|toDevs| - 1];
      RowLoads(rd, fromDev, front, r);
      ForwardOneLoads(rd, fromDev, last, r);
      LoadsSnoc(rd, ForwardRow(fromDev, front, r), ForwardOne(fromDev, last, r));
      DevicesSnoc(rd, toDevs);
    }
  }

  lemma {:induction false} BlockLoads(rd: Reading, fromDevs: seq<string>, toDevs: seq<string>, r: ForwardRule)
    ensures AllLoad(rd, ForwardBlock(fromDevs, toDevs, r)) <==>
              fromDevs == [] || toDevs == []
              || (DevicesLoad(rd, fromDevs) && DevicesLoad(rd, toDevs) && ForwardLoads(rd, r))
  {
    if fromDevs != [] {
      var front, last := fromDevs[..|fromDevs| - 1], fromDevs[|fromDevs| - 1];
      BlockLoads(rd, front, toDevs, r);
      RowLoads(rd, last, toDevs, r);
      LoadsConcat(rd, ForwardBlock(front, toDevs, r), ForwardRow(last, toDevs, r));
      DevicesSnoc(rd, fromDevs);
    }
  }

  lemma {:induction false} InputBlockLoads(rd: Reading, devs: seq<string>, r: InputRule)
    ensures AllLoad(rd, InputBlock(devs, r)) <==> devs == [] || (DevicesLoad(rd, devs) && InputLoads(rd, r))
  {
    if devs != [] {
      var front, last := devs[..|devs| - 1], devs[|devs| - 1];
      InputBlockLoads(rd, front, r);
      InputOneLoads(rd, last, r);
      LoadsSnoc(rd, InputBlock(front, r), InputOne(last, r));
      DevicesSnoc(rd, devs);
    }
  }

  // A rule is no obstacle when it does not reach the file or everything it puts there is taken.
  predicate ForwardFine(rd: Reading, zones: map<string, seq<string>>, r: ForwardRule) {
    var from, to := Lookup(zones, r.from), Lookup(zones, r.to);
    from == [] || to == [] || (DevicesLoad(rd, from) && DevicesLoad(rd, to) && ForwardLoads(rd, r))
  }

  predicate InputFine(rd: Reading, zones: map<string, seq<string>>, r: InputRule) {
    var devs := Lookup(zones, r.zone);
    devs == [] || (DevicesLoad(rd, devs) && InputLoads(rd, r))
  }

  lemma {:induction false} ForwardAllLoads(rd: Reading, zones: map<string, seq<string>>, rules: seq<ForwardRule>)
    ensures AllLoad(rd, ForwardAll(zones, rules)) <==> forall r :: r in rules ==> ForwardFine(rd, zones, r)
  {
    if rules != [] {
      var front, last := rules[..|rules| - 1], rules[|rules| - 1];
      ForwardAllLoads(rd, zones, front);
      BlockLoads(rd, Lookup(zones, last.from), Lookup(zones, last.to), last);
      LoadsConcat(
        rd, ForwardAll(zones, front), ForwardBlock(Lookup(zones, last.from), Lookup(zones, last.to), last));
      assert last in rules && forall r :: r in rules <==> r in front || r == last;
    }
  }

  lemma {:induction false} InputAllLoads(rd: Reading, zones: map<string, seq<string>>, rules: seq<InputRule>)
    ensures AllLoad(rd, InputAll(zones, rules)) <==> forall r :: r in rules ==> InputFine(rd, zones, r)
  {
    if rules != [] {
      var front, last := rules[..|rules| - 1], rules[|rules| - 1];
      InputAllLoads(rd, zones, front);
      InputBlockLoads(rd, Lookup(zones, last.zone), last);
      LoadsConcat(rd, InputAll(zones, front), InputBlock(Lookup(zones, last.zone), last));
      assert last in rules && forall r :: r in rules <==> r in front || r == last;
    }
  }

  /* ---------- The exact condition ---------- */

  ghost predicate Populated(fw: Firewall, ifs: seq<Interface>, zone: string) {
    exists d :: InZone(fw.zones, ifs, zone, d)
  }

  ghost predicate ZoneLoads(rd: Reading, fw: Firewall, ifs: seq<Interface>, zone: string) {
    forall d :: InZone(fw.zones, ifs, zone, d) ==> rd.takes(DeviceText(d))
  }

  lemma ZoneMeaning(rd: Reading, fw: Firewall, ifs: seq<Interface>, zone: string)
    ensures Populated(fw, ifs, zone) <==> Lookup(ZoneTable(fw.zones, ifs), zone) != []
    ensures ZoneLoads(rd, fw, ifs, zone) <==> DevicesLoad(rd, Lookup(ZoneTable(fw.zones, ifs), zone))
  {
    var devs := Lookup(ZoneTable(fw.zones, ifs), zone);
    forall d
      ensures d in devs <==> InZone(fw.zones, ifs, zone, d)
    {
      ZoneTableMeaning(fw.zones, ifs, zone, d);
    }
    assert devs != [] ==> devs[0] in devs;
  }

  // A configured rule reaches the file when its zones have devices.
  ghost predicate ForwardWritable(rd: Reading, fw: Firewall, ifs: seq<Interface>, r: ForwardRule) {
    Populated(fw, ifs, r.from) && Populated(fw, ifs, r.to) ==>
      ZoneLoads(rd, fw, ifs, r.from) && ZoneLoads(rd, fw, ifs, r.to) && ForwardLoads(rd, r)
  }

  ghost predicate InputWritable(rd: Reading, fw: Firewall, ifs: seq<Interface>, r: InputRule) {
    Populated(fw, ifs, r.zone) ==> ZoneLoads(rd, fw, ifs, r.zone) && InputLoads(rd, r)
  }

  ghost predicate WansLoad(rd: Reading, ifs: seq<Interface>) {
    forall f :: f in ifs && f.role == "wan" ==> rd.takes(DeviceText(f.device))
  }

  lemma WansMeaning(rd: Reading, ifs: seq<Interface>)
    ensures WansLoad(rd, ifs) <==> forall d :: d in WanDevices(ifs) ==> rd.takes(DeviceText(d))
  {
    forall d
      ensures d in WanDevices(ifs) <==> exists f :: f in ifs && f.role == "wan" && f.device == d
    {
      MasqueradeIsWan(ifs, d);
    }
  }

  // With a firewall section the file loads exactly when nft takes, for every rule whose zones have devices, those
  // devices, the texts of the rule and its comment, the rule's port stands beside a protocol that has ports, its
  // action is in lower case, and nft takes the devices of all uplinks.
  lemma LoadsExactlyWhen(rd: Reading, fw: Firewall, cfg: SiteConfig)
    requires cfg.firewall == Some(fw)
    ensures Loads(rd, Rendered(cfg)) <==>
              && (forall r :: r in fw.forwardRules ==> ForwardWritable(rd, fw, cfg.interfaces, r))
              && (forall r :: r in fw.inputRules ==> InputWritable(rd, fw, cfg.interfaces, r))
              && WansLoad(rd, cfg.interfaces)
  {
    var zones := ZoneTable(fw.zones, cfg.interfaces);
    ForwardAllLoads(rd, zones, fw.forwardRules);
    InputAllLoads(rd, zones, fw.inputRules);
    WansMeaning(rd, cfg.interfaces);
    forall r: ForwardRule
      ensures ForwardFine(rd, zones, r) <==> ForwardWritable(rd, fw, cfg.interfaces, r)
    {
      ZoneMeaning(rd, fw, cfg.interfaces, r.from);
      ZoneMeaning(rd, fw, cfg.interfaces, r.to);
    }
    forall r: InputRule
      ensures InputFine(rd, zones, r) <==> InputWritable(rd, fw, cfg.interfaces, r)
    {
      ZoneMeaning(rd, fw, cfg.interfaces, r.zone);
    }
  }

  lemma {:induction false} LanRulesLoad(rd: Reading, ifs: seq<Interface>)
    ensures AllLoad(rd, LanRules(ifs)) <==>
              forall f :: f in ifs && f.role == "lan" ==>
                            rd.takes(DeviceText(f.device))
                            && rd.takes(CommentText("Allow all from " + f.name + " (LAN)"))
  {
    if ifs != [] {
      var front, last := ifs[..|ifs| - 1], ifs[|ifs| - 1];
      LanRulesLoad(rd, front);
      assert last in ifs && forall f :: f in ifs <==> f in front || f == last;
      if last.role == "lan" {
        TwoPartsLoad(rd, Iif(last.device), Iif(last.device));
        LoadsSnoc(rd, LanRules(front), NftRule([Iif(last.device)], "accept", LanComment(last)));
      } else {
        assert LanRules(ifs) == LanRules(front);
      }
    }
  }

  // Without one, it takes the devices of all interfaces and the names of the LANs.
  lemma DefaultLoadsExactlyWhen(rd: Reading, cfg: SiteConfig)
    requires cfg.firewall.None?
    ensures Loads(rd, Rendered(cfg)) <==>
              && WansLoad(rd, cfg.interfaces)
              && forall f :: f in cfg.interfaces && f.role == "lan" ==>
                               rd.takes(DeviceText(f.device))
                               && rd.takes(CommentText("Allow all from " + f.name + " (LAN)"))
  {
    LanRulesLoad(rd, cfg.interfaces);
    WansMeaning(rd, cfg.interfaces);
  }

  /* ---------- Validation does not ensure it ---------- */

  function WithInputRule(cfg: SiteConfig, fw: Firewall, r: InputRule): SiteConfig {
    cfg.(firewall := Some(fw.(inputRules := fw.inputRules + [r])))
  }

  // Whatever nft takes: an accepted configuration with a device in some zone stays accepted when an input rule for
  // that zone is added whose action is in capitals, or which asks for a port of a protocol without ports, and then
  // does not load.
  lemma AcceptedMayNotLoad(rd: Reading, cfg: SiteConfig, fw: Firewall, r: InputRule)
    requires Validate.Accepted(cfg) && cfg.firewall == Some(fw)
    requires r.zone in Validate.ZoneNames(fw.zones) && Populated(fw, cfg.interfaces, r.zone)
    requires Validate.ValidAction(r.action)
    requires !Keyword(r.action) || (r.protocol != "" && r.port != "" && !rd.hasPorts(r.protocol))
    ensures Validate.Accepted(WithInputRule(cfg, fw, r))
    ensures !Loads(rd, Rendered(WithInputRule(cfg, fw, r)))
  {
    hide Validate.WellFormedInterfaces, Validate.SubnetsDisjoint, Validate.WellFormedDNS, Validate.WellFormedPBR,
         Validate.WellFormedDHCP, Loads, Rendered;
    var fw' := fw.(inputRules := fw.inputRules + [r]);
    assert fw'.inputRules[|fw.inputRules|] == r && r in fw'.inputRules;
    assert Validate.WellFormedFirewall(fw', Validate.InterfaceNames(cfg.interfaces));
    assert !InputWritable(rd, fw', cfg.interfaces, r) by {
      var d :| InZone(fw.zones, cfg.interfaces, r.zone, d);
      assert InZone(fw'.zones, cfg.interfaces, r.zone, d);
    }
    LoadsExactlyWhen(rd, fw', WithInputRule(cfg, fw, r));
  }

  lemma MemberPopulates(ifs: seq<Interface>, z: FirewallZone, k: nat)
    requires DistinctNames(ifs) && k < |ifs| && z.interfaces == [ifs[k].name]
    ensures Populated(Firewall([z], [], []), ifs, z.name)
  {
    assert z in [z] && ifs[k].name in z.interfaces;
    LastNamedIsOnly(ifs, k);
    assert HasDevice(ifs, ifs[k].name, ifs[k].device);
    assert InMembers(ifs, z.interfaces, ifs[k].device);
    assert InZone([z], ifs, z.name, ifs[k].device);
  }

  lemma OneZoneIsWellFormed(ifs: seq<Interface>, z: FirewallZone, k: nat)
    requires k < |ifs| && z.interfaces == [ifs[k].name] && z.name != ""
    ensures Validate.WellFormedFirewall(Firewall([z], [], []), Validate.InterfaceNames(ifs))
    ensures z.name in Validate.ZoneNames([z])
  {
    assert ifs[k] in ifs && z in [z];
    assert ifs[k].name in Validate.InterfaceNames(ifs);
  }

  // Two such rules on a small accepted site: "ACCEPT", and, icmp having no ports, a port of icmp.
  lemma AcceptedButNotLoaded(rd: Reading, ifs: seq<Interface>, r: InputRule)
    requires Validate.SmallSite(ifs) && r.zone != ""
    requires r.action == "ACCEPT"
          || (r.action == "accept" && r.protocol == "icmp" && r.port == "80" && !rd.hasPorts("icmp"))
    ensures var fw := Firewall([FirewallZone(r.zone, [ifs[1].name])], [], [r]);
            var cfg := Validate.PlainSite(ifs, Some(fw));
            Validate.Accepted(cfg) && !Loads(rd, Rendered(cfg))
  {
    hide Validate.Accepted, Loads, Rendered, Populated, Validate.WellFormedFirewall, Validate.ZoneNames;
    var z := FirewallZone(r.zone, [ifs[1].name]);
    var fw := Firewall([z], [], []);
    OneZoneIsWellFormed(ifs, z, 1);
    Validate.SmallSiteAccepted(ifs, Some(fw));
    MemberPopulates(ifs, z, 1);
    UpperCaseIsValid();
    AcceptedMayNotLoad(rd, Validate.PlainSite(ifs, Some(fw)), fw, r);
    assert fw.(inputRules := fw.inputRules + [r]) == Firewall([z], [], [r]);
  }

  lemma UpperCaseIsValid()
    ensures Validate.ValidAction("ACCEPT") && !Keyword("ACCEPT") && Validate.ValidAction("accept")
  {
    assert ToLower("ACCEPT") == "accept" == ToLower("accept");
  }
}
