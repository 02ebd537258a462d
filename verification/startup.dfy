/**
 Three places pick the default routes from the configuration on their own: the FRR renderer
 (internal/services/frr/frr.go), the monitor command (cmd/warp/main.go) and the controller. Here they are shown
 to agree, so that the monitor starts without issuing any command, whatever FRR holds by then.
 */
module Startup {
  import opened Text
  import opened IPNet
  import opened Config
  import opened Validate
  import opened Health
  import opened Routes
  import opened Failover
  import opened FailoverSystem

  /* ---------- FRR renderer: default routes ---------- */

  datatype StaticRoute = StaticRoute(prefix: string, nextHop: string, device: string)

  datatype ECMPNextHop = ECMPNextHop(nextHop: string, device: string)

  datatype FRRData = FRRData(ecmp: bool, ecmpNextHops: seq<ECMPNextHop>, staticRoutes: seq<StaticRoute>)

  const DEFAULT_ROUTE := "ip route 0.0.0.0/0 "

  // The route lines of the rendered file.
  function StaticLine(r: StaticRoute): string {
    "ip route " + r.prefix + [' '] + r.nextHop + (if r.device != "" then [' '] + r.device else "")
  }

  function ECMPLine(h: ECMPNextHop): string {
    DEFAULT_ROUTE + h.nextHop + [' '] + h.device
  }

  function RouteLines(d: FRRData): set<string> {
    StaticLines(d.staticRoutes) + if d.ecmp then ECMPLines(d.ecmpNextHops) else {}
  }

  // One default route per uplink, as configured.
  function UplinkLine(f: Interface): string {
    DEFAULT_ROUTE + f.gateway + [' '] + f.device
  }

  function UplinkLines(ifs: seq<Interface>): set<string> {
    set f | f in ifs && f.IsUplink() :: UplinkLine(f)
  }

  lemma UplinkLinesSnoc(ifs: seq<Interface>, f: Interface)
    ensures UplinkLines(ifs + [f]) == UplinkLines(ifs) + if f.IsUplink() then {UplinkLine(f)} else {}
  {
  }

  function ECMPLines(hops: seq<ECMPNextHop>): set<string> {
    set h | h in hops :: ECMPLine(h)
  }

  function StaticLines(routes: seq<StaticRoute>): set<string> {
    set r | r in routes :: StaticLine(r)
  }

  lemma LinesSnoc(hops: seq<ECMPNextHop>, h: ECMPNextHop, routes: seq<StaticRoute>, r: StaticRoute)
    ensures ECMPLines(hops + [h]) == ECMPLines(hops) + {ECMPLine(h)}
    ensures StaticLines(routes + [r]) == StaticLines(routes) + {StaticLine(r)}
  {
  }

  method RenderDefaultRoutes(c: SiteConfig) returns (d: FRRData)
    ensures (forall f :: f in c.interfaces ==> f.device != "") ==> RouteLines(d) == UplinkLines(c.interfaces)
    ensures d.ecmp <==> c.ecmpEnabled && |WANs(c.interfaces)| > 1
    ensures if d.ecmp then d.staticRoutes == [] else d.ecmpNextHops == []
  {
    var wans := CollectWANs(c.interfaces);
    if c.ecmpEnabled && |wans| > 1 {
      var hops: seq<ECMPNextHop> := [];
      for i := 0 to |wans|
        invariant ECMPLines(hops) == UplinkLines(wans[..i])
      {
        assert wans[..i + 1] == wans[..i] + [wans[i]];
        UplinkLinesSnoc(wans[..i], wans[i]);
        if wans[i].gateway != "" {
          var h := ECMPNextHop(wans[i].gateway, wans[i].device);
          LinesSnoc(hops, h, [], StaticRoute("", "", ""));
          hops := hops + [h];
        }
      }
      assert wans[..|wans|] == wans;
      d := FRRData(true, hops, []);
    } else {
      var routes: seq<StaticRoute> := [];
      for i := 0 to |wans|
        invariant (forall f :: f in wans ==> f.device != "") ==> StaticLines(routes) == UplinkLines(wans[..i])
      {
        assert wans[..i + 1] == wans[..i] + [wans[i]];
        UplinkLinesSnoc(wans[..i], wans[i]);
        if wans[i].gateway != "" {
          var r := StaticRoute("0.0.0.0/0", wans[i].gateway, wans[i].device);
          LineOf(r, wans[i]);
          LinesSnoc([], ECMPNextHop("", ""), routes, r);
          routes := routes + [r];
        }
      }
      assert wans[..|wans|] == wans;
      d := FRRData(false, [], routes);
    }
  }

  lemma LineOf(r: StaticRoute, f: Interface)
    requires r == StaticRoute("0.0.0.0/0", f.gateway, f.device)
    ensures f.device != "" ==> StaticLine(r) == UplinkLine(f)
  {
    assert "ip route " + "0.0.0.0/0" + [' '] == DEFAULT_ROUTE;
  }

  function WANs(ifs: seq<Interface>): seq<Interface> {
    if ifs == [] then []
    else WANs(ifs[..|ifs| - 1]) + if ifs[|ifs| - 1].role == "wan" then [ifs[|ifs| - 1]] else []
  }

  method CollectWANs(ifs: seq<Interface>) returns (wans: seq<Interface>)
    ensures wans == WANs(ifs)
    ensures forall f :: f in wans <==> f in ifs && f.role == "wan"
    ensures UplinkLines(wans) == UplinkLines(ifs)
  {
    wans := [];
    for i := 0 to |ifs|
      invariant wans == WANs(ifs[..i])
      invariant forall f :: f in wans <==> f in ifs[..i] && f.role == "wan"
    {
      assert ifs[..i + 1] == ifs[..i] + [ifs[i]];
      assert ifs[..i + 1][..i] == ifs[..i];
      if ifs[i].role == "wan" {
        wans := wans + [ifs[i]];
      }
    }
    assert ifs[..|ifs|] == ifs;
  }

  /* ---------- The monitor command ---------- */

  function ProbeOf(f: Interface): ProbeConfig {
    ProbeConfig(f.name,
                if f.healthCheck.Some? && f.healthCheck.value.target != "" then f.healthCheck.value.target
                else f.gateway,
                if f.healthCheck.Some? && f.healthCheck.value.interval > 0 then f.healthCheck.value.interval else 0,
                if f.healthCheck.Some? && f.healthCheck.value.timeout > 0 then f.healthCheck.value.timeout else 0,
                if f.healthCheck.Some? && f.healthCheck.value.failures > 0 then f.healthCheck.value.failures
                else 0)
  }

  // What is probed, field by field: the configured target or else the gateway, and what the configuration sets of
  // interval, timeout and threshold, with the defaults one second, two seconds and three failures.
  lemma ProbeMeaning(f: Interface)
    ensures var probe := Effective(ProbeOf(f));
            && probe.name == f.name
            && match f.healthCheck
               case None => probe == ProbeConfig(f.name, f.gateway, 1, 2, 3)
               case Some(hc) =>
                 && (probe.target == if hc.target == "" then f.gateway else hc.target)
                 && (probe.interval == if hc.interval >= 1 then hc.interval else 1)
                 && (probe.timeout == if hc.timeout >= 1 then hc.timeout else 2)
                 && (probe.failures == if hc.failures >= 1 then hc.failures else 3)
  {
  }

  function ProbeList(ifs: seq<Interface>): seq<ProbeConfig> {
    if ifs == [] then []
    else
      var last := ifs[|ifs| - 1];
      ProbeList(ifs[..|ifs| - 1]) + if last.IsUplink() then [ProbeOf(last)] else []
  }

  function RouteList(ifs: seq<Interface>): seq<Nexthop>
    requires GatewaysParse(ifs)
  {
    if ifs == [] then []
    else
      var last := ifs[|ifs| - 1];
      RouteList(ifs[..|ifs| - 1]) + if last.IsUplink() then [UplinkOf(last).Hop()] else []
  }

  // The keys of the configured uplinks' routes.
  function UplinkKeys(ifs: seq<Interface>): set<string>
    requires GatewaysParse(ifs)
  {
    set f | f in ifs && f.IsUplink() :: NhKey(UplinkOf(f).Hop())
  }

  lemma UplinkKeysSnoc(ifs: seq<Interface>, f: Interface)
    requires GatewaysParse(ifs + [f])
    ensures GatewaysParse(ifs) && (f.IsUplink() ==> ParseIP(f.gateway).Some?)
    ensures UplinkKeys(ifs + [f]) == UplinkKeys(ifs) + if f.IsUplink() then {NhKey(UplinkOf(f).Hop())} else {}
  {
    assert f in ifs + [f] && forall g :: g in ifs ==> g in ifs + [f];
  }

  lemma {:induction false} RouteListKeys(ifs: seq<Interface>)
    requires GatewaysParse(ifs)
    ensures Keys(RouteList(ifs)) == UplinkKeys(ifs)
  {
    if ifs != [] {
      var front, last := ifs[..|ifs| - 1], ifs[|ifs| - 1];
      assert front + [last] == ifs;
      UplinkKeysSnoc(front, last);
      RouteListKeys(front);
      if last.IsUplink() {
        KeysSnoc(RouteList(front), UplinkOf(last).Hop());
      }
    }
  }

  function UplinkNames(ifs: seq<Interface>): set<string> {
    set f | f in ifs && f.IsUplink() :: f.name
  }

  lemma {:induction false} ProbeListNames(ifs: seq<Interface>)
    ensures ConfigNames(ProbeList(ifs)) == UplinkNames(ifs)
  {
    if ifs != [] {
      var front, last := ifs[..|ifs| - 1], ifs[|ifs| - 1];
      ProbeListNames(front);
      assert ifs == front + [last];
      if last.IsUplink() {
        ConfigNamesSnoc(ProbeList(front), ProbeOf(last));
      } else {
        assert ProbeList(ifs) == ProbeList(front);
      }
    }
  }

  lemma {:induction false} ProbeListMembers(ifs: seq<Interface>, p: ProbeConfig)
    requires p in ProbeList(ifs)
    ensures exists f :: f in ifs && f.IsUplink() && p == ProbeOf(f)
  {
    hide ProbeOf;
    var front, last := ifs[..|ifs| - 1], ifs[|ifs| - 1];
    if p in ProbeList(front) {
      ProbeListMembers(front, p);
    }
  }

  // Each uplink is probed at the target it is configured with.
  lemma TargetOfUplink(ifs: seq<Interface>, f: Interface, target: string)
    requires DistinctNames(ifs) && f in ifs && LastTarget(ProbeList(ifs), f.name, target)
    ensures target == ProbeOf(f).target
  {
    var k :| 0 <= k < |ProbeList(ifs)| && ProbeList(ifs)[k].name == f.name && ProbeList(ifs)[k].target == target;
    ProbeListMembers(ifs, ProbeList(ifs)[k]);
    var g :| g in ifs && ProbeList(ifs)[k] == ProbeOf(g);
    NamedIs(ifs, f);
    NamedIs(ifs, g);
  }

  lemma ConfigNamesSnoc(probes: seq<ProbeConfig>, p: ProbeConfig)
    ensures ConfigNames(probes + [p]) == ConfigNames(probes) + {p.name}
  {
  }

  // The loop of cmdMonitor: one probe and one known route per uplink.
  method MonitorTargets(ifs: seq<Interface>) returns (probes: seq<ProbeConfig>, initialRoutes: seq<Nexthop>)
    requires GatewaysParse(ifs)
    ensures probes == ProbeList(ifs)
    ensures initialRoutes == RouteList(ifs)
  {
    probes, initialRoutes := [], [];
    for i := 0 to |ifs|
      invariant probes == ProbeList(ifs[..i])
      invariant initialRoutes == RouteList(ifs[..i])
    {
      assert ifs[..i + 1][..i] == ifs[..i];
      var f := ifs[i];
      if f.role != "wan" || f.gateway == "" {
        continue;
      }
      var pc := ProbeConfig(f.name, f.gateway, 0, 0, 0);
      if f.healthCheck.Some? {
        if f.healthCheck.value.target != "" {
          pc := pc.(target := f.healthCheck.value.target);
        }
        if f.healthCheck.value.interval > 0 {
          pc := pc.(interval := f.healthCheck.value.interval);
        }
        if f.healthCheck.value.timeout > 0 {
          pc := pc.(timeout := f.healthCheck.value.timeout);
        }
        if f.healthCheck.value.failures > 0 {
          pc := pc.(failures := f.healthCheck.value.failures);
        }
      }
      probes := probes + [pc];
      initialRoutes := initialRoutes + [Nexthop(ParseIP(f.gateway).value, f.device, 1)];
    }
    assert ifs[..|ifs|] == ifs;
  }

  /* ---------- Agreement ---------- */

  // FRR reads a rendered default route as a gateway address and a device; routes are told apart by these, whatever
  // way the address is written.
  ghost predicate Denotes(line: string, key: string) {
    exists g, device :: ParseIP(g).Some? && LineAndKey(line, key, g, device)
  }

  ghost predicate LineAndKey(line: string, key: string, g: string, device: string)
    requires ParseIP(g).Some?
  {
    line == DEFAULT_ROUTE + (g + [' '] + device) && key == NhKey(Nexthop(ParseIP(g).value, device, 1))
  }

  // The routes FRR holds after it loaded the rendered file.
  ghost predicate Loaded(table: set<string>, lines: set<string>) {
    forall key :: key in table <==> exists line :: line in lines && Denotes(line, key)
  }

  lemma LineText(f: Interface)
    ensures UplinkLine(f) == DEFAULT_ROUTE + (f.gateway + [' '] + f.device)
  {
  }

  lemma SamePrefix(p: string, a: string, b: string)
    requires p + a == p + b
    ensures a == b
  {
    assert a == (p + a)[|p|..] && b == (p + b)[|p|..];
  }

  // The line rendered for an uplink denotes the manager's key of that uplink.
  lemma UplinkLineDenotes(f: Interface, key: string)
    requires ParseIP(f.gateway).Some?
    ensures Denotes(UplinkLine(f), key) <==> key == NhKey(UplinkOf(f).Hop())
  {
    LineText(f);
    if key == NhKey(UplinkOf(f).Hop()) {
      assert LineAndKey(UplinkLine(f), key, f.gateway, f.device);
    }
    if g, device :| ParseIP(g).Some? && LineAndKey(UplinkLine(f), key, g, device) {
      SamePrefix(DEFAULT_ROUTE, f.gateway + [' '] + f.device, g + [' '] + device);
      AddressHasNoSpace(f.gateway);
      AddressHasNoSpace(g);
      SplitUnique(f.gateway, f.device, g, device, ' ');
    }
  }

  // It is also the very text of the command that adds that route exactly when the gateway is written in canonical
  // form, as every IPv4 address is.
  lemma UplinkLineIsKey(f: Interface)
    requires ParseIP(f.gateway).Some?
    ensures UplinkLine(f) == Add(NhKey(UplinkOf(f).Hop())).ConfigLine() <==> CanonicalIP(f.gateway)
    ensures ':' !in f.gateway ==> CanonicalIP(f.gateway)
  {
    var printed := Format(ParseIP(f.gateway).value);
    LineText(f);
    AddressHasNoSpace(f.gateway);
    ParseFormat(ParseIP(f.gateway).value);
    if UplinkLine(f) == DEFAULT_ROUTE + (printed + [' '] + f.device) {
      SamePrefix(DEFAULT_ROUTE, f.gateway + [' '] + f.device, printed + [' '] + f.device);
      SplitUnique(f.gateway, f.device, printed, f.device, ' ');
    }
    if ':' !in f.gateway {
      DottedIsCanonical(f.gateway);
    }
  }

  // FRR's table is what it loaded from the rendered lines exactly when it is the set of uplink keys.
  lemma LoadedKeys(ifs: seq<Interface>, table: set<string>)
    requires GatewaysParse(ifs)
    ensures Loaded(table, UplinkLines(ifs)) <==> table == UplinkKeys(ifs)
  {
    forall key
      ensures (exists line :: line in UplinkLines(ifs) && Denotes(line, key)) <==> key in UplinkKeys(ifs)
    {
      LineIsKey(ifs, key);
    }
  }

  lemma LineIsKey(ifs: seq<Interface>, key: string)
    requires GatewaysParse(ifs)
    ensures (exists line :: line in UplinkLines(ifs) && Denotes(line, key)) <==> key in UplinkKeys(ifs)
  {
    if key in UplinkKeys(ifs) {
      var f :| f in ifs && f.IsUplink() && key == NhKey(UplinkOf(f).Hop());
      UplinkLineDenotes(f, key);
      assert UplinkLine(f) in UplinkLines(ifs);
    }
    if line :| line in UplinkLines(ifs) && Denotes(line, key) {
      var f :| f in ifs && f.IsUplink() && line == UplinkLine(f);
      UplinkLineDenotes(f, key);
    }
  }

  lemma WantedAtStart(ifs: seq<Interface>, site: Site)
    requires GatewaysParse(ifs) && DistinctNames(ifs) && site.uplinks == UplinkIndex(ifs)
    ensures Wanted(site, map n | n in site.uplinks :: true) == UplinkKeys(ifs)
  {
    hide NhKey;
    UplinkIndexOf(ifs);
    var active := map n | n in site.uplinks :: true;
    forall f | f in ifs && f.IsUplink()
      ensures NhKey(UplinkOf(f).Hop()) in Wanted(site, active)
    {
      assert f.name in site.uplinks && IsActive(active, f.name);
    }
    forall n | n in site.uplinks
      ensures KeyOf(site, n) in UplinkKeys(ifs)
    {
      var f :| f in ifs && f.IsUplink() && f.name == n;
    }
  }

  // For every accepted configuration the three selections are the same set of routes.
  lemma SelectionsAgree(c: SiteConfig, d: FRRData, table: set<string>, site: Site)
    requires Accepted(c) && GatewaysParse(c.interfaces) && site.uplinks == UplinkIndex(c.interfaces)
    requires RouteLines(d) == UplinkLines(c.interfaces) && Loaded(table, RouteLines(d))
    ensures table == Keys(RouteList(c.interfaces)) == Wanted(site, map n | n in site.uplinks :: true)
  {
    LoadedKeys(c.interfaces, table);
    RouteListKeys(c.interfaces);
    WantedAtStart(c.interfaces, site);
  }

  lemma AcceptedGatewaysParse(c: SiteConfig)
    requires Accepted(c)
    ensures GatewaysParse(c.interfaces) && DistinctNames(c.interfaces) && DistinctDevices(c.interfaces)
    ensures forall f :: f in c.interfaces ==> f.device != ""
  {
  }

  lemma AcceptedUplinksDistinct(c: SiteConfig, site: Site)
    requires Accepted(c) && GatewaysParse(c.interfaces) && site.uplinks == UplinkIndex(c.interfaces)
    ensures DistinctUplinkDevices(site)
  {
    UplinkIndexOf(c.interfaces);
    forall m, n | m in site.uplinks && n in site.uplinks && m != n
      ensures site.uplinks[m].device != site.uplinks[n].device
    {
      var f :| f in c.interfaces && f.IsUplink() && f.name == m;
      var g :| g in c.interfaces && g.IsUplink() && g.name == n;
      DevicesDiffer(c.interfaces, f, g);
    }
  }

  lemma DevicesDiffer(ifs: seq<Interface>, f: Interface, g: Interface)
    requires DistinctDevices(ifs) && f in ifs && g in ifs && f != g
    ensures f.device != g.device
  {
    var i :| 0 <= i < |ifs| && ifs[i] == f;
    var j :| 0 <= j < |ifs| && ifs[j] == g;
  }

  // Replacing a set by itself takes no command.
  lemma NoDifferenceNoCommand(installed: set<string>, attempts: seq<Attempt>, ok: bool)
    requires Replaces(installed, installed, attempts, ok)
    ensures attempts == [] && ok
  {
    ReplaceSmallDifference(installed, installed, attempts, ok, "");
  }

  /* ---------- Policy rules that are dropped ---------- */

  // Of a configuration: every usable rule is tracked exactly when no two usable rules of one name differ.
  lemma RulesTrackedExactlyWhen(c: SiteConfig)
    requires GatewaysParse(c.interfaces)
    ensures (forall r :: r in c.pbr && PolicyRuleOf(c.interfaces, r).Some? ==>
               PolicyRuleOf(c.interfaces, r).value in PolicyIndex(c.interfaces, c.pbr).Values)
       <==> (forall q, r :: q in c.pbr && r in c.pbr && q.name == r.name ==>
               (PolicyRuleOf(c.interfaces, q).Some? && PolicyRuleOf(c.interfaces, r).Some? ==>
                  PolicyRuleOf(c.interfaces, q) == PolicyRuleOf(c.interfaces, r)))
  {
    hide PolicyRuleOf, LastByName;
    var rs := PolicyRulesOf(c.interfaces, c.pbr);
    EveryRuleTrackedExactlyWhen(rs);
    UsableRules(c.interfaces, c.pbr);
  }

  lemma UsableRules(ifs: seq<Interface>, pbr: seq<PBRRule>)
    requires GatewaysParse(ifs)
    ensures forall q :: Some(q) in PolicyRulesOf(ifs, pbr) <==> exists r :: r in pbr && PolicyRuleOf(ifs, r) == Some(q)
    ensures forall r :: r in pbr && PolicyRuleOf(ifs, r).Some? ==> PolicyRuleOf(ifs, r).value.name == r.name
  {
    var rs := PolicyRulesOf(ifs, pbr);
    forall r | r in pbr
      ensures PolicyRuleOf(ifs, r) in rs
    {
      var i :| 0 <= i < |pbr| && pbr[i] == r;
      assert rs[i] == PolicyRuleOf(ifs, r);
    }
  }

  // Validation does not see to that: an accepted configuration with a usable rule stays accepted when another rule of
  // the same name and interface is added, and then the first is no longer tracked.
  lemma AcceptedDropsRule(c: SiteConfig, q: PBRRule, priority: int, source: string)
    requires Accepted(c) && GatewaysParse(c.interfaces) && q in c.pbr && PolicyRuleOf(c.interfaces, q).Some?
    requires source != "" && ValidCIDR(source) && forall r :: r in c.pbr ==> r.priority != priority
    ensures var c' := c.(pbr := c.pbr + [q.(priority := priority, source := source)]);
            && Accepted(c')
            && PolicyRuleOf(c.interfaces, q).value !in PolicyIndex(c.interfaces, c'.pbr).Values
  {
    hide WellFormedInterfaces, SubnetsDisjoint, WellFormedFirewall, WellFormedDNS, WellFormedDHCP, ValidCIDR, ParseIP;
    var added := q.(priority := priority, source := source);
    var pbr := c.pbr + [added];
    AddedRuleIsFine(c.pbr, InterfaceNames(c.interfaces), q, added);
    LaterRuleWins(c.interfaces, c.pbr, q, added);
  }

  lemma AddedRuleIsFine(pbr: seq<PBRRule>, names: set<string>, q: PBRRule, added: PBRRule)
    requires WellFormedPBR(pbr, names) && q in pbr && ValidCIDR(added.source)
    requires added.name == q.name && added.iface == q.iface && forall r :: r in pbr ==> r.priority != added.priority
    ensures WellFormedPBR(pbr + [added], names)
  {
    hide ValidCIDR;
  }

  lemma LaterRuleWins(ifs: seq<Interface>, pbr: seq<PBRRule>, q: PBRRule, added: PBRRule)
    requires GatewaysParse(ifs) && q in pbr && PolicyRuleOf(ifs, q).Some?
    requires added == q.(priority := added.priority, source := added.source) && added.priority != q.priority
    requires ValidCIDR(added.source)
    ensures PolicyRuleOf(ifs, q).value !in PolicyIndex(ifs, pbr + [added]).Values
  {
    var rs, a := PolicyRulesOf(ifs, pbr + [added]), PolicyRuleOf(ifs, added);
    SameTarget(ifs, q, added);
    var r := PolicyRuleOf(ifs, q).value;
    assert rs[|pbr|] == a;
    if n :| n in LastByName(rs) && LastByName(rs)[n] == r {
      PolicyIndexMeaning(rs, n, r);
    }
  }

  lemma SameTarget(ifs: seq<Interface>, q: PBRRule, added: PBRRule)
    requires GatewaysParse(ifs) && PolicyRuleOf(ifs, q).Some? && ValidCIDR(added.source)
    requires added == q.(priority := added.priority, source := added.source) && added.priority != q.priority
    ensures PolicyRuleOf(ifs, added).Some? && PolicyRuleOf(ifs, q).value.name == q.name
    ensures PolicyRuleOf(ifs, added).value.name == q.name && PolicyRuleOf(ifs, added) != PolicyRuleOf(ifs, q)
  {
    hide ParseIP, ParsePrefix, MakeBlock;
  }

  // A small accepted site for which it happens.
  lemma AcceptedSiteDropsRule(gateway: IP, net: IP, ones: nat) returns (c: SiteConfig, q: PBRRule)
    requires ones <= 8 * |net|
    ensures Accepted(c) && GatewaysParse(c.interfaces) && q in c.pbr && PolicyRuleOf(c.interfaces, q).Some?
    ensures PolicyRuleOf(c.interfaces, q).value !in PolicyIndex(c.interfaces, c.pbr).Values
  {
    hide ParseIP, ParsePrefix, MakeBlock, Format, PolicyIndex;
    var ifs := SmallSiteExists(gateway);
    var source := CIDRText(net, ones);
    q := PBRRule("via", 1, source, ifs[0].name);
    ParsePrinted(net, ones);
    SmallSiteAccepted(ifs, None);
    var before := PlainSite(ifs, None).(pbr := [q]);
    assert ifs[0] in ifs && ifs[0].name in InterfaceNames(ifs);
    OneRuleIsFine(PlainSite(ifs, None), q);
    AcceptedGatewaysParse(before);
    LastNamedIsOnly(ifs, 0);
    AcceptedDropsRule(before, q, 2, source);
    c := before.(pbr := [q] + [q.(priority := 2)]);
    assert q.(priority := 2, source := source) == q.(priority := 2);
  }

  lemma OneRuleIsFine(c: SiteConfig, q: PBRRule)
    requires Accepted(c) && q.name != "" && q.iface in InterfaceNames(c.interfaces) && ValidCIDR(q.source)
    ensures Accepted(c.(pbr := [q]))
  {
    hide WellFormedInterfaces, SubnetsDisjoint, WellFormedFirewall, WellFormedDNS, WellFormedDHCP, ValidCIDR;
  }

  /* ---------- Starting the monitor ---------- */

  // The failure thresholds the goroutines run with.
  function ThresholdIndex(ifs: seq<Interface>): map<string, nat> {
    if ifs == [] then map[]
    else
      var before, last := ThresholdIndex(ifs[..|ifs| - 1]), ifs[|ifs| - 1];
      if last.IsUplink() then before[last.name := EffectiveThreshold(ProbeOf(last).failures)] else before
  }

  lemma {:induction false} ThresholdIndexMeaning(ifs: seq<Interface>)
    requires GatewaysParse(ifs)
    ensures ThresholdIndex(ifs).Keys == UplinkIndex(ifs).Keys
    ensures forall n :: n in ThresholdIndex(ifs) ==> ThresholdIndex(ifs)[n] >= 1
    ensures DistinctNames(ifs) ==>
              forall f :: f in ifs && f.IsUplink() ==>
                f.name in ThresholdIndex(ifs) && ThresholdIndex(ifs)[f.name] == EffectiveThreshold(ProbeOf(f).failures)
  {
    hide ProbeOf, UplinkOf, DistinctNames, Interface.IsUplink, ParseIP;
    if ifs != [] {
      var front, last := ifs[..|ifs| - 1], ifs[|ifs| - 1];
      ThresholdIndexMeaning(front);
      assert forall f :: f in ifs <==> f in front || f == last;
      if DistinctNames(ifs) {
        LastNameIsNew(ifs);
      }
    }
  }

  // What a monitor for a configuration runs on.
  function PlanOf(c: SiteConfig): Plan
    requires GatewaysParse(c.interfaces)
  {
    Plan(Site(UplinkIndex(c.interfaces), PolicyIndex(c.interfaces, c.pbr).Values), ThresholdIndex(c.interfaces))
  }

  // What the controller knows and has done once the initial routes are installed; FRR is not part of it.
  ghost predicate AcceptedStart(c: SiteConfig, view: Control) {
    && GatewaysParse(c.interfaces)
    && view.active == (map n | n in UplinkIndex(c.interfaces) :: true)
    && Tracks(PlanOf(c).site, view) && PolicyFollows(PlanOf(c).site, view)
  }

  // cmdMonitor up to the point where probing starts. On an accepted configuration installing the initial routes
  // succeeds without any command, whatever FRR holds, so that FRR and the controller agree exactly when FRR still
  // holds the rendered routes.
  method StartMonitor(c: SiteConfig, frr: FRR)
    returns (prober: Prober?, ghost attempts: seq<Attempt>, ghost view: Control)
    modifies frr
    ensures prober != null <==> Accepted(c) && UplinkNames(c.interfaces) != {}
    ensures attempts == [] && frr.table == old(frr.table)
    ensures prober != null ==> AcceptedStart(c, view) && view.frr == frr.table
    ensures prober != null ==> (Synced(PlanOf(c).site, view) <==> Loaded(frr.table, UplinkLines(c.interfaces)))
    ensures prober != null ==> fresh(prober) && prober.Valid() && prober.states.Keys == UplinkNames(c.interfaces)
    ensures prober != null ==> forall n :: n in prober.states ==> prober.states[n].View() == INITIAL
    ensures prober != null ==> forall f :: f in c.interfaces && f.IsUplink() ==>
              f.name in prober.states && prober.states[f.name].target == ProbeOf(f).target
  {
    hide ProbeOf, LastTarget, ParseIP, Loaded, Synced, AcceptedStart, Accepted;
    prober, attempts, view := null, [], Control(map[], {}, {}, {});
    var valid := Validate.Validate(c);
    if !valid {
      return;
    }
    AcceptedGatewaysParse(c);
    var probes, initialRoutes := MonitorTargets(c.interfaces);
    ProbeListNames(c.interfaces);
    if probes == [] {
      return;
    }
    assert probes[0] in probes;
    attempts, view := StartController(c, initialRoutes, frr);
    var p := new Prober();
    p.Start(probes);
    forall f | f in c.interfaces && f.IsUplink()
      ensures f.name in p.states && p.states[f.name].target == ProbeOf(f).target
    {
      assert f.name in ConfigNames(probes);
      TargetOfUplink(c.interfaces, f, p.states[f.name].target);
    }
    prober := p;
  }

  method StartController(c: SiteConfig, initialRoutes: seq<Nexthop>, frr: FRR)
    returns (ghost attempts: seq<Attempt>, ghost view: Control)
    requires Accepted(c) && GatewaysParse(c.interfaces) && initialRoutes == RouteList(c.interfaces)
    modifies frr
    ensures attempts == [] && frr.table == old(frr.table) && view.frr == frr.table && AcceptedStart(c, view)
    ensures Synced(PlanOf(c).site, view) <==> Loaded(frr.table, UplinkLines(c.interfaces))
  {
    var routes := new VtyshRouteManager(initialRoutes, frr);
    var ctrl := new Controller(c, routes);
    ghost var before := ctrl.View();
    LoadedKeys(c.interfaces, frr.table);
    RouteListKeys(c.interfaces);
    WantedAtStart(c.interfaces, ctrl.Fixed());
    var ok;
    ok, attempts := ctrl.InstallInitialRoutes();
    NoDifferenceNoCommand(before.installed, attempts, ok);
    view := ctrl.View();
    InitialInstallStartsPolicy(ctrl.Fixed(), before, attempts, view);
  }

  function StartState(c: SiteConfig, view: Control): System
    requires GatewaysParse(c.interfaces)
  {
    var uplinks := UplinkIndex(c.interfaces);
    System(map u | u in uplinks :: [], map u | u in uplinks :: INITIAL, map[], map u | u in uplinks :: Unknown, {},
           view)
  }

  // That state is where the interleaved runs of the configuration's own plan begin.
  lemma StartIsInitial(c: SiteConfig, view: Control)
    requires Accepted(c) && AcceptedStart(c, view)
    ensures WellFormed(PlanOf(c)) && DistinctUplinkDevices(PlanOf(c).site)
    ensures Initial(PlanOf(c), StartState(c, view)) && IsRun(PlanOf(c), [StartState(c, view)], [])
    ensures forall f :: f in c.interfaces && f.IsUplink() ==>
              && f.name in PlanOf(c).thresholds
              && PlanOf(c).thresholds[f.name] == Effective(ProbeOf(f)).failures
              && PlanOf(c).thresholds[f.name] == if f.healthCheck.Some? && f.healthCheck.value.failures >= 1
                                                 then f.healthCheck.value.failures else 3
  {
    AcceptedUplinksDistinct(c, PlanOf(c).site);
    ThresholdIndexMeaning(c.interfaces);
  }

  // Policy routing in the terms of the configuration: in every state of every run of an accepted one, whatever FRR
  // refuses, the last usable rule of a name is present, as configured, exactly when the uplink it goes through is
  // active; the only other rules are those through interfaces that are no uplinks, which are always present.
  lemma PolicyRulesFollowConfig(
    c: SiteConfig, states: seq<System>, steps: seq<Step>, i: nat, k: int, f: Interface, r: PolicyRule)
    requires Accepted(c) && GatewaysParse(c.interfaces) && IsRun(PlanOf(c), states, steps) && i < |states|
    requires LastUsable(c.interfaces, c.pbr, k) && f in c.interfaces && f.name == c.pbr[k].iface
    requires r.name == c.pbr[k].name
    ensures r in states[i].control.policy <==>
              && (f.IsUplink() ==> IsActive(states[i].control.active, f.name))
              && ParseIP(f.gateway).Some? && ParseCIDR(c.pbr[k].source).Some?
              && r == PolicyRule(c.pbr[k].name, c.pbr[k].priority, ParseCIDR(c.pbr[k].source).value,
                                 ParseIP(f.gateway).value, f.device)
  {
    hide IsRun, Accepted, LastUsable, PolicyIndex, UplinkIndex, ParseIP, ParseCIDR, DistinctUplinkDevices;
    var site := PlanOf(c).site;
    AcceptedGatewaysParse(c);
    AcceptedUplinksDistinct(c, site);
    PolicyFollowsActiveUplinks(PlanOf(c), states, steps, i, r);
    TrackedRuleIs(c.interfaces, c.pbr, k, f);
    TrackedUnderOwnName(c.interfaces, c.pbr, r);
    UplinkOnDevice(c, f, site);
  }

  lemma TrackedUnderOwnName(ifs: seq<Interface>, pbr: seq<PBRRule>, r: PolicyRule)
    requires GatewaysParse(ifs)
    ensures r in PolicyIndex(ifs, pbr).Values <==> r.name in PolicyIndex(ifs, pbr) && PolicyIndex(ifs, pbr)[r.name] == r
  {
    if n :| n in PolicyIndex(ifs, pbr) && PolicyIndex(ifs, pbr)[n] == r {
      PolicyIndexMeaning(PolicyRulesOf(ifs, pbr), n, r);
    }
  }

  // The only uplink on an interface's device is that interface.
  lemma UplinkOnDevice(c: SiteConfig, f: Interface, site: Site)
    requires Accepted(c) && GatewaysParse(c.interfaces) && site.uplinks == UplinkIndex(c.interfaces)
    requires f in c.interfaces
    ensures forall u :: u in site.uplinks && site.uplinks[u].device == f.device ==> f.IsUplink() && u == f.name
    ensures f.IsUplink() ==> f.name in site.uplinks && site.uplinks[f.name].device == f.device
  {
    hide ParseIP, ParseCIDR;
    AcceptedGatewaysParse(c);
    UplinkIndexOf(c.interfaces);
    forall u | u in site.uplinks && site.uplinks[u].device == f.device
      ensures f.IsUplink() && u == f.name
    {
      var g :| g in c.interfaces && g.IsUplink() && g.name == u;
      if g != f {
        DevicesDiffer(c.interfaces, g, f);
      }
    }
  }
}
