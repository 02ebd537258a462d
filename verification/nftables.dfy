/**
 The nftables renderer (internal/services/nftables/nftables.go) as a compiler: zone-level rules become one rule
 per pair of devices. Both sides get a first-match packet semantics, and the expansion is shown to preserve it.
 */
module NFTables {
  import opened Text
  import opened IPNet
  import opened Config
  import Validate

  /* ---------- Packets and rules ---------- */

  datatype Packet = Packet(
    iif: string, oif: string, protocol: string, dport: nat, src: IPv4, dst: IPv4, established: bool)

  // Known and KnownPorts are parts of the fixed rules; Protocol and DPort hold the texts of configured rules.
  datatype Match =
    | Iif(device: string)
    | Oif(device: string)
    | Known(protocol: string)
    | Protocol(text: string)
    | KnownPorts(protocol: string, numbers: set<nat>)
    | DPort(protocol: string, port: string)
    | SAddr(addr: string)
    | DAddr(addr: string)
    | Established

  // One rendered rule, with the text of the comment line above it: it applies when all its parts match.
  datatype NftRule = NftRule(parts: seq<Match>, action: string, comment: string)

  datatype Ruleset = Ruleset(input: seq<NftRule>, forward: seq<NftRule>, masquerade: seq<string>)

  // A configured text at its place in the file.
  datatype FileText =
    | DeviceText(text: string) | ProtocolText(text: string) | PortText(text: string) | AddressText(text: string)
    | CommentText(text: string)

  // How nft reads configured texts: which it takes at their place, which protocol texts it knows a dport of, and what
  // protocols, ports and addresses match. Every result holds for every reading.
  datatype Reading = Reading(
    takes: FileText -> bool, hasPorts: string -> bool,
    protocol: (string, string) -> bool, port: (string, nat) -> bool, addr: (string, IPv4) -> bool)

  predicate Satisfies(rd: Reading, m: Match, p: Packet) {
    match m
    case Iif(d) => p.iif == d
    case Oif(d) => p.oif == d
    case Known(proto) => p.protocol == proto
    case Protocol(text) => rd.protocol(text, p.protocol)
    case KnownPorts(proto, numbers) => p.protocol == proto && p.dport in numbers
    case DPort(proto, text) => rd.protocol(proto, p.protocol) && rd.hasPorts(proto) && rd.port(text, p.dport)
    case SAddr(a) => rd.addr(a, p.src)
    case DAddr(a) => rd.addr(a, p.dst)
    case Established => p.established
  }

  predicate AllSatisfied(rd: Reading, parts: seq<Match>, p: Packet) {
    forall m :: m in parts ==> Satisfies(rd, m, p)
  }

  // The action of the first rule that applies.
  function FirstMatch(rd: Reading, rules: seq<NftRule>, p: Packet): Option<string> {
    if rules == [] then None
    else
      var earlier := FirstMatch(rd, rules[..|rules| - 1], p);
      var last := rules[|rules| - 1];
      if earlier.Some? then earlier else if AllSatisfied(rd, last.parts, p) then Some(last.action) else None
  }

  lemma FirstMatchSnoc(rd: Reading, rules: seq<NftRule>, r: NftRule, p: Packet)
    ensures FirstMatch(rd, rules + [r], p)
         == if FirstMatch(rd, rules, p).Some? then FirstMatch(rd, rules, p)
            else if AllSatisfied(rd, r.parts, p) then Some(r.action) else None
  {
  }

  lemma {:induction false} FirstMatchConcat(rd: Reading, a: seq<NftRule>, b: seq<NftRule>, p: Packet)
    ensures FirstMatch(rd, a + b, p)
         == if FirstMatch(rd, a, p).Some? then FirstMatch(rd, a, p) else FirstMatch(rd, b, p)
  {
    if b == [] {
      assert a + b == a;
    } else {
      var front, last := b[..|b| - 1], b[|b| - 1];
      FirstMatchConcat(rd, a, front, p);
      FirstMatchSnoc(rd, a + front, last, p);
      FirstMatchSnoc(rd, front, last, p);
      assert a + b == (a + front) + [last] && b == front + [last];
    }
  }

  datatype Verdict = Accept | Drop

  // The last rule of both chains drops what no rule has taken.
  function VerdictOf(action: Option<string>): Verdict {
    if action == Some("accept") then Accept else Drop
  }

  /* ---------- The fixed rules of the template ---------- */

  const PRELUDE_MATCHES: seq<Match> := [
    Iif("lo"),
    Established,
    Known("icmp"),
    KnownPorts("tcp", {22}),
    KnownPorts("udp", {67, 68}),
    KnownPorts("tcp", {53}),
    KnownPorts("udp", {53}),
    KnownPorts("tcp", {179}),
    KnownPorts("udp", {3784, 3785, 4784})]

  function Accepting(matches: seq<Match>): (r: seq<NftRule>)
    ensures |r| == |matches|
    ensures forall i :: 0 <= i < |r| ==> r[i] == NftRule([matches[i]], "accept", "")
  {
    seq(|matches|, i requires 0 <= i < |matches| => NftRule([matches[i]], "accept", ""))
  }

  const INPUT_PRELUDE: seq<NftRule> := Accepting(PRELUDE_MATCHES)

  const FORWARD_PRELUDE: seq<NftRule> := [NftRule([Established], "accept", "")]

  function InputVerdict(rd: Reading, rs: Ruleset, p: Packet): Verdict {
    VerdictOf(FirstMatch(rd, INPUT_PRELUDE + rs.input, p))
  }

  function ForwardVerdict(rd: Reading, rs: Ruleset, p: Packet): Verdict {
    VerdictOf(FirstMatch(rd, FORWARD_PRELUDE + rs.forward, p))
  }

  /* ---------- Zone-level semantics ---------- */

  // A zone is the union of the devices of its member interfaces, over all entries of that name.
  ghost predicate InZone(zones: seq<FirewallZone>, ifs: seq<Interface>, zone: string, device: string) {
    exists z :: z in zones && z.name == zone && InMembers(ifs, z.interfaces, device)
  }

  ghost predicate InMembers(ifs: seq<Interface>, members: seq<string>, device: string) {
    exists m :: m in members && HasDevice(ifs, m, device)
  }

  ghost predicate HasDevice(ifs: seq<Interface>, name: string, device: string) {
    LastNamed(ifs, name).Some? && LastNamed(ifs, name).value.device == device
  }

  // A port without a protocol is ignored.
  predicate ServiceMatches(rd: Reading, protocol: string, port: string, p: Packet) {
    && (protocol != "" ==> rd.protocol(protocol, p.protocol))
    && (protocol != "" && port != "" ==> rd.hasPorts(protocol) && rd.port(port, p.dport))
  }

  predicate AddressMatches(rd: Reading, source: string, dest: string, p: Packet) {
    && (source != "" ==> rd.addr(source, p.src))
    && (dest != "" ==> rd.addr(dest, p.dst))
  }

  predicate TrafficMatches(rd: Reading, protocol: string, port: string, source: string, dest: string, p: Packet) {
    ServiceMatches(rd, protocol, port, p) && AddressMatches(rd, source, dest, p)
  }

  ghost predicate ForwardApplies(rd: Reading, fw: Firewall, ifs: seq<Interface>, r: ForwardRule, p: Packet) {
    && InZone(fw.zones, ifs, r.from, p.iif) && InZone(fw.zones, ifs, r.to, p.oif)
    && TrafficMatches(rd, r.protocol, r.port, r.source, r.dest, p)
  }

  ghost predicate InputApplies(rd: Reading, fw: Firewall, ifs: seq<Interface>, r: InputRule, p: Packet) {
    InZone(fw.zones, ifs, r.zone, p.iif) && TrafficMatches(rd, r.protocol, r.port, r.source, "", p)
  }

  ghost function FirstForward(
    rd: Reading, fw: Firewall, ifs: seq<Interface>, rules: seq<ForwardRule>, p: Packet): Option<string>
  {
    if rules == [] then None
    else
      var earlier, last := FirstForward(rd, fw, ifs, rules[..|rules| - 1], p), rules[|rules| - 1];
      if earlier.Some? then earlier else if ForwardApplies(rd, fw, ifs, last, p) then Some(last.action) else None
  }

  ghost function FirstInput(
    rd: Reading, fw: Firewall, ifs: seq<Interface>, rules: seq<InputRule>, p: Packet): Option<string>
  {
    if rules == [] then None
    else
      var earlier, last := FirstInput(rd, fw, ifs, rules[..|rules| - 1], p), rules[|rules| - 1];
      if earlier.Some? then earlier else if InputApplies(rd, fw, ifs, last, p) then Some(last.action) else None
  }

  // Traffic the router always lets in.
  predicate AlwaysAccepted(p: Packet) {
    || p.iif == "lo" || p.established || p.protocol == "icmp"
    || (p.protocol == "tcp" && p.dport in {22, 53, 179})
    || (p.protocol == "udp" && p.dport in {67, 68, 53, 3784, 3785, 4784})
  }

  ghost function ZoneForwardVerdict(rd: Reading, fw: Firewall, ifs: seq<Interface>, p: Packet): Verdict {
    if p.established then Accept else VerdictOf(FirstForward(rd, fw, ifs, fw.forwardRules, p))
  }

  ghost function ZoneInputVerdict(rd: Reading, fw: Firewall, ifs: seq<Interface>, p: Packet): Verdict {
    if AlwaysAccepted(p) then Accept else VerdictOf(FirstInput(rd, fw, ifs, fw.inputRules, p))
  }

  /* ---------- What the loops produce ---------- */

  // A missing key of the zone table reads as no devices.
  function Lookup(table: map<string, seq<string>>, key: string): seq<string> {
    if key in table then table[key] else []
  }

  function AddMembers(table: map<string, seq<string>>, zone: string, ifs: seq<Interface>, members: seq<string>)
    : map<string, seq<string>>
  {
    if members == [] then table
    else
      var before := AddMembers(table, zone, ifs, members[..|members| - 1]);
      var found := LastNamed(ifs, members[|members| - 1]);
      if found.Some? then before[zone := Lookup(before, zone) + [found.value.device]] else before
  }

  function ZoneTable(zones: seq<FirewallZone>, ifs: seq<Interface>): map<string, seq<string>> {
    if zones == [] then map[]
    else
      var last := zones[|zones| - 1];
      AddMembers(ZoneTable(zones[..|zones| - 1], ifs), last.name, ifs, last.interfaces)
  }

  function ServiceParts(protocol: string, port: string): seq<Match> {
    if protocol == "" then []
    else if port == "" then [Protocol(protocol)]
    else [Protocol(protocol), DPort(protocol, port)]
  }

  function AddressParts(source: string, dest: string): seq<Match> {
    if source == "" && dest == "" then []
    else if dest == "" then [SAddr(source)]
    else if source == "" then [DAddr(dest)]
    else [SAddr(source), DAddr(dest)]
  }

  function TrafficParts(protocol: string, port: string, source: string, dest: string): seq<Match> {
    ServiceParts(protocol, port) + AddressParts(source, dest)
  }

  function ForwardComment(r: ForwardRule): string {
    r.from + " \U{2192} " + r.to + ": " + r.action
  }

  function InputComment(r: InputRule): string {
    "input from " + r.zone + " zone"
  }

  function LanComment(f: Interface): string {
    "Allow all from " + f.name + " (LAN)"
  }

  function ForwardOne(fromDev: string, toDev: string, r: ForwardRule): NftRule {
    NftRule([Iif(fromDev), Oif(toDev)] + TrafficParts(r.protocol, r.port, r.source, r.dest), r.action,
            ForwardComment(r))
  }

  function ForwardRow(fromDev: string, toDevs: seq<string>, r: ForwardRule): seq<NftRule> {
    if toDevs == [] then []
    else ForwardRow(fromDev, toDevs[..|toDevs| - 1], r) + [ForwardOne(fromDev, toDevs[|toDevs| - 1], r)]
  }

  function ForwardBlock(fromDevs: seq<string>, toDevs: seq<string>, r: ForwardRule): seq<NftRule> {
    if fromDevs == [] then []
    else ForwardBlock(fromDevs[..|fromDevs| - 1], toDevs, r) + ForwardRow(fromDevs[|fromDevs| - 1], toDevs, r)
  }

  function ForwardAll(zones: map<string, seq<string>>, rules: seq<ForwardRule>): seq<NftRule> {
    if rules == [] then []
    else
      var r := rules[|rules| - 1];
      ForwardAll(zones, rules[..|rules| - 1])
      + ForwardBlock(Lookup(zones, r.from), Lookup(zones, r.to), r)
  }

  function InputOne(dev: string, r: InputRule): NftRule {
    NftRule([Iif(dev)] + TrafficParts(r.protocol, r.port, r.source, ""), r.action, InputComment(r))
  }

  function InputBlock(devs: seq<string>, r: InputRule): seq<NftRule> {
    if devs == [] then [] else InputBlock(devs[..|devs| - 1], r) + [InputOne(devs[|devs| - 1], r)]
  }

  function InputAll(zones: map<string, seq<string>>, rules: seq<InputRule>): seq<NftRule> {
    if rules == [] then []
    else
      var r := rules[|rules| - 1];
      InputAll(zones, rules[..|rules| - 1]) + InputBlock(Lookup(zones, r.zone), r)
  }

  /* ---------- The expansion preserves meaning ---------- */

  lemma {:induction false} AddMembersMeaning(
    table: map<string, seq<string>>, zone: string, ifs: seq<Interface>, members: seq<string>, n: string, device: string)
    ensures device in Lookup(AddMembers(table, zone, ifs, members), n)
       <==> device in Lookup(table, n) || (n == zone && InMembers(ifs, members, device))
  {
    if members != [] {
      var front, last := members[..|members| - 1], members[|members| - 1];
      AddMembersMeaning(table, zone, ifs, front, n, device);
      assert InMembers(ifs, members, device) <==> InMembers(ifs, front, device) || HasDevice(ifs, last, device) by {
        assert last in members && forall m :: m in members <==> m in front || m == last;
      }
    }
  }

  // The devices listed for a zone are exactly those of its members.
  lemma {:induction false} ZoneTableMeaning(
    zones: seq<FirewallZone>, ifs: seq<Interface>, name: string, device: string)
    ensures device in Lookup(ZoneTable(zones, ifs), name) <==> InZone(zones, ifs, name, device)
  {
    if zones != [] {
      var front, last := zones[..|zones| - 1], zones[|zones| - 1];
      ZoneTableMeaning(front, ifs, name, device);
      AddMembersMeaning(ZoneTable(front, ifs), last.name, ifs, last.interfaces, name, device);
      assert last in zones && forall z :: z in zones <==> z in front || z == last;
    }
  }

  lemma AllSatisfiedConcat(rd: Reading, a: seq<Match>, b: seq<Match>, p: Packet)
    ensures AllSatisfied(rd, a + b, p) <==> AllSatisfied(rd, a, p) && AllSatisfied(rd, b, p)
  {
    assert forall m :: m in a + b <==> m in a || m in b;
  }

  lemma OnePart(rd: Reading, a: Match, p: Packet)
    ensures AllSatisfied(rd, [a], p) <==> Satisfies(rd, a, p)
  {
    assert a in [a];
  }

  lemma TwoParts(rd: Reading, a: Match, b: Match, p: Packet)
    ensures AllSatisfied(rd, [a, b], p) <==> Satisfies(rd, a, p) && Satisfies(rd, b, p)
  {
    assert a in [a, b] && b in [a, b];
  }

  lemma ServicePartsMeaning(rd: Reading, protocol: string, port: string, p: Packet)
    ensures AllSatisfied(rd, ServiceParts(protocol, port), p) <==> ServiceMatches(rd, protocol, port, p)
  {
    OnePart(rd, Protocol(protocol), p);
    TwoParts(rd, Protocol(protocol), DPort(protocol, port), p);
  }

  lemma AddressPartsMeaning(rd: Reading, source: string, dest: string, p: Packet)
    ensures AllSatisfied(rd, AddressParts(source, dest), p) <==> AddressMatches(rd, source, dest, p)
  {
    OnePart(rd, SAddr(source), p);
    OnePart(rd, DAddr(dest), p);
    TwoParts(rd, SAddr(source), DAddr(dest), p);
  }

  lemma TrafficPartsMeaning(rd: Reading, protocol: string, port: string, source: string, dest: string, p: Packet)
    ensures AllSatisfied(rd, TrafficParts(protocol, port, source, dest), p)
       <==> TrafficMatches(rd, protocol, port, source, dest, p)
  {
    ServicePartsMeaning(rd, protocol, port, p);
    AddressPartsMeaning(rd, source, dest, p);
    AllSatisfiedConcat(rd, ServiceParts(protocol, port), AddressParts(source, dest), p);
  }

  lemma ForwardOneMeaning(rd: Reading, fromDev: string, toDev: string, r: ForwardRule, p: Packet)
    ensures AllSatisfied(rd, ForwardOne(fromDev, toDev, r).parts, p) <==>
              p.iif == fromDev && p.oif == toDev && TrafficMatches(rd, r.protocol, r.port, r.source, r.dest, p)
  {
    TrafficPartsMeaning(rd, r.protocol, r.port, r.source, r.dest, p);
    AllSatisfiedConcat(rd, [Iif(fromDev), Oif(toDev)], TrafficParts(r.protocol, r.port, r.source, r.dest), p);
    TwoParts(rd, Iif(fromDev), Oif(toDev), p);
  }

  lemma {:induction false} ForwardRowMeaning(
    rd: Reading, fromDev: string, toDevs: seq<string>, r: ForwardRule, p: Packet)
    ensures FirstMatch(rd, ForwardRow(fromDev, toDevs, r), p)
         == if p.iif == fromDev && p.oif in toDevs && TrafficMatches(rd, r.protocol, r.port, r.source, r.dest, p)
            then Some(r.action) else None
  {
    hide AllSatisfied, TrafficMatches, TrafficParts;
    if toDevs != [] {
      var front, last := toDevs[..|toDevs| - 1], toDevs[|toDevs| - 1];
      ForwardRowMeaning(rd, fromDev, front, r, p);
      ForwardOneMeaning(rd, fromDev, last, r, p);
      FirstMatchSnoc(rd, ForwardRow(fromDev, front, r), ForwardOne(fromDev, last, r), p);
      assert toDevs == front + [last];
    }
  }

  lemma {:induction false} ForwardBlockMeaning(
    rd: Reading, fromDevs: seq<string>, toDevs: seq<string>, r: ForwardRule, p: Packet)
    ensures FirstMatch(rd, ForwardBlock(fromDevs, toDevs, r), p)
         == if p.iif in fromDevs && p.oif in toDevs && TrafficMatches(rd, r.protocol, r.port, r.source, r.dest, p)
            then Some(r.action) else None
  {
    hide AllSatisfied, TrafficMatches, TrafficParts;
    if fromDevs != [] {
      var front, last := fromDevs[..|fromDevs| - 1], fromDevs[|fromDevs| - 1];
      ForwardBlockMeaning(rd, front, toDevs, r, p);
      ForwardRowMeaning(rd, last, toDevs, r, p);
      FirstMatchConcat(rd, ForwardBlock(front, toDevs, r), ForwardRow(last, toDevs, r), p);
      assert fromDevs == front + [last];
    }
  }

  lemma {:induction false} ForwardAllMeaning(
    rd: Reading, fw: Firewall, ifs: seq<Interface>, rules: seq<ForwardRule>, p: Packet)
    ensures FirstMatch(rd, ForwardAll(ZoneTable(fw.zones, ifs), rules), p) == FirstForward(rd, fw, ifs, rules, p)
  {
    hide TrafficMatches, InZone;
    if rules != [] {
      var zones, front, r := ZoneTable(fw.zones, ifs), rules[..|rules| - 1], rules[|rules| - 1];
      var from, to := Lookup(zones, r.from), Lookup(zones, r.to);
      ForwardAllMeaning(rd, fw, ifs, front, p);
      ForwardBlockMeaning(rd, from, to, r, p);
      FirstMatchConcat(rd, ForwardAll(zones, front), ForwardBlock(from, to, r), p);
      ZoneTableMeaning(fw.zones, ifs, r.from, p.iif);
      ZoneTableMeaning(fw.zones, ifs, r.to, p.oif);
    }
  }

  lemma InputOneMeaning(rd: Reading, dev: string, r: InputRule, p: Packet)
    ensures AllSatisfied(rd, InputOne(dev, r).parts, p) <==>
              p.iif == dev && TrafficMatches(rd, r.protocol, r.port, r.source, "", p)
  {
    TrafficPartsMeaning(rd, r.protocol, r.port, r.source, "", p);
    AllSatisfiedConcat(rd, [Iif(dev)], TrafficParts(r.protocol, r.port, r.source, ""), p);
    OnePart(rd, Iif(dev), p);
  }

  lemma {:induction false} InputBlockMeaning(rd: Reading, devs: seq<string>, r: InputRule, p: Packet)
    ensures FirstMatch(rd, InputBlock(devs, r), p)
         == if p.iif in devs && TrafficMatches(rd, r.protocol, r.port, r.source, "", p) then Some(r.action) else None
  {
    hide AllSatisfied, TrafficMatches, TrafficParts;
    if devs != [] {
      var front, last := devs[..|devs| - 1], devs[|devs| - 1];
      InputBlockMeaning(rd, front, r, p);
      InputOneMeaning(rd, last, r, p);
      FirstMatchSnoc(rd, InputBlock(front, r), InputOne(last, r), p);
      assert devs == front + [last];
    }
  }

  lemma {:induction false} InputAllMeaning(
    rd: Reading, fw: Firewall, ifs: seq<Interface>, rules: seq<InputRule>, p: Packet)
    ensures FirstMatch(rd, InputAll(ZoneTable(fw.zones, ifs), rules), p) == FirstInput(rd, fw, ifs, rules, p)
  {
    hide TrafficMatches, InZone;
    if rules != [] {
      var zones, front, r := ZoneTable(fw.zones, ifs), rules[..|rules| - 1], rules[|rules| - 1];
      var devs := Lookup(zones, r.zone);
      InputAllMeaning(rd, fw, ifs, front, p);
      InputBlockMeaning(rd, devs, r, p);
      FirstMatchConcat(rd, InputAll(zones, front), InputBlock(devs, r), p);
      ZoneTableMeaning(fw.zones, ifs, r.zone, p.iif);
    }
  }

  /* ---------- The fixed rules ---------- */

  // The prelude takes exactly the traffic it lists, and accepts it.
  lemma PreludeTakes(rd: Reading, p: Packet)
    ensures FirstMatch(rd, INPUT_PRELUDE, p) == if AlwaysAccepted(p) then Some("accept") else None
  {
    AcceptingRules(rd, PRELUDE_MATCHES, p);
    PreludeMatches(rd, p);
  }

  ghost predicate SomeSatisfied(rd: Reading, matches: seq<Match>, p: Packet) {
    exists i :: 0 <= i < |matches| && Satisfies(rd, matches[i], p)
  }

  lemma {:induction false} AcceptingRules(rd: Reading, matches: seq<Match>, p: Packet)
    ensures FirstMatch(rd, Accepting(matches), p) == if SomeSatisfied(rd, matches, p) then Some("accept") else None
  {
    if matches != [] {
      var front, last := matches[..|matches| - 1], matches[|matches| - 1];
      AcceptingRules(rd, front, p);
      assert Accepting(matches)[..|matches| - 1] == Accepting(front);
      OnePart(rd, last, p);
      assert forall i :: 0 <= i < |front| ==> matches[i] == front[i];
    }
  }

  lemma PreludeMatches(rd: Reading, p: Packet)
    ensures AlwaysAccepted(p) <==> SomeSatisfied(rd, PRELUDE_MATCHES, p)
  {
    if AlwaysAccepted(p) {
      var i := if p.iif == "lo" then 0 else if p.established then 1 else if p.protocol == "icmp" then 2
               else if p.protocol == "tcp" then (if p.dport == 22 then 3 else if p.dport == 53 then 5 else 7)
               else if p.dport in {67, 68} then 4 else if p.dport == 53 then 6 else 8;
      assert Satisfies(rd, PRELUDE_MATCHES[i], p);
    }
  }

  // No custom rules, whatever they are, change the verdict of a packet the prelude takes.
  lemma PreludeWins(rd: Reading, custom: Ruleset, p: Packet)
    ensures AlwaysAccepted(p) ==> InputVerdict(rd, custom, p) == Accept
    ensures !AlwaysAccepted(p) ==> InputVerdict(rd, custom, p) == VerdictOf(FirstMatch(rd, custom.input, p))
  {
    PreludeTakes(rd, p);
    FirstMatchConcat(rd, INPUT_PRELUDE, custom.input, p);
  }

  lemma EstablishedWins(rd: Reading, custom: Ruleset, p: Packet)
    ensures ForwardVerdict(rd, custom, p)
         == if p.established then Accept else VerdictOf(FirstMatch(rd, custom.forward, p))
  {
    FirstMatchConcat(rd, FORWARD_PRELUDE, custom.forward, p);
    assert FORWARD_PRELUDE[..0] == [] && Established in FORWARD_PRELUDE[0].parts;
  }

  /* ---------- Rendering ---------- */

  function LanRules(ifs: seq<Interface>): seq<NftRule> {
    if ifs == [] then []
    else
      var last := ifs[|ifs| - 1];
      LanRules(ifs[..|ifs| - 1])
      + if last.role == "lan" then [NftRule([Iif(last.device)], "accept", LanComment(last))] else []
  }

  function WanDevices(ifs: seq<Interface>): seq<string> {
    if ifs == [] then []
    else
      var last := ifs[|ifs| - 1];
      WanDevices(ifs[..|ifs| - 1]) + if last.role == "wan" then [last.device] else []
  }

  function Rendered(cfg: SiteConfig): Ruleset {
    match cfg.firewall
    case Some(fw) =>
      var zones := ZoneTable(fw.zones, cfg.interfaces);
      Ruleset(InputAll(zones, fw.inputRules), ForwardAll(zones, fw.forwardRules), WanDevices(cfg.interfaces))
    case None => Ruleset([], LanRules(cfg.interfaces), WanDevices(cfg.interfaces))
  }

  method BuildForwardRule(fromDev: string, toDev: string, rule: ForwardRule) returns (r: NftRule)
    ensures r == ForwardOne(fromDev, toDev, rule)
  {
    var traffic := BuildTraffic(rule.protocol, rule.port, rule.source, rule.dest);
    r := NftRule([Iif(fromDev), Oif(toDev)] + traffic, rule.action, ForwardComment(rule));
  }

  // The optional parts, appended in the order both builders use; an input rule has no destination.
  method BuildTraffic(protocol: string, port: string, source: string, dest: string) returns (parts: seq<Match>)
    ensures parts == TrafficParts(protocol, port, source, dest)
  {
    parts := [];
    if protocol != "" {
      parts := parts + [Protocol(protocol)];
    }
    if port != "" && protocol != "" {
      parts := parts + [DPort(protocol, port)];
    }
    if source != "" {
      parts := parts + [SAddr(source)];
    }
    if dest != "" {
      parts := parts + [DAddr(dest)];
    }
  }

  method BuildInputRule(dev: string, rule: InputRule) returns (r: NftRule)
    ensures r == InputOne(dev, rule)
  {
    var traffic := BuildTraffic(rule.protocol, rule.port, rule.source, "");
    r := NftRule([Iif(dev)] + traffic, rule.action, InputComment(rule));
  }

  method BuildZones(zones: seq<FirewallZone>, ifs: seq<Interface>) returns (zoneDevices: map<string, seq<string>>)
    ensures zoneDevices == ZoneTable(zones, ifs)
  {
    var byName := IndexByName(ifs);
    zoneDevices := map[];
    for i := 0 to |zones|
      invariant zoneDevices == ZoneTable(zones[..i], ifs)
    {
      var members := zones[i].interfaces;
      ghost var before := zoneDevices;
      for j := 0 to |members|
        invariant zoneDevices == AddMembers(before, zones[i].name, ifs, members[..j])
      {
        assert members[..j + 1][..j] == members[..j];
        if members[j] in byName {
          zoneDevices := zoneDevices[zones[i].name := Lookup(zoneDevices, zones[i].name) + [byName[members[j]].device]];
        }
      }
      assert members[..|members|] == members && zones[..i + 1][..i] == zones[..i];
    }
    assert zones[..|zones|] == zones;
  }

  method ExpandForward(zones: map<string, seq<string>>, rules: seq<ForwardRule>) returns (out: seq<NftRule>)
    ensures out == ForwardAll(zones, rules)
  {
    out := [];
    for i := 0 to |rules|
      invariant out == ForwardAll(zones, rules[..i])
    {
      assert rules[..i + 1][..i] == rules[..i];
      out := AppendForward(out, Lookup(zones, rules[i].from), Lookup(zones, rules[i].to), rules[i]);
    }
    assert rules[..|rules|] == rules;
  }

  // The two device loops of one forward rule.
  method AppendForward(before: seq<NftRule>, fromDevs: seq<string>, toDevs: seq<string>, rule: ForwardRule)
    returns (out: seq<NftRule>)
    ensures out == before + ForwardBlock(fromDevs, toDevs, rule)
  {
    out := before;
    for j := 0 to |fromDevs|
      invariant out == before + ForwardBlock(fromDevs[..j], toDevs, rule)
    {
      assert fromDevs[..j + 1][..j] == fromDevs[..j];
      out := AppendRow(out, fromDevs[j], toDevs, rule);
    }
    assert fromDevs[..|fromDevs|] == fromDevs;
  }

  method AppendRow(before: seq<NftRule>, fromDev: string, toDevs: seq<string>, rule: ForwardRule)
    returns (out: seq<NftRule>)
    ensures out == before + ForwardRow(fromDev, toDevs, rule)
  {
    out := before;
    for k := 0 to |toDevs|
      invariant out == before + ForwardRow(fromDev, toDevs[..k], rule)
    {
      var r := BuildForwardRule(fromDev, toDevs[k], rule);
      assert toDevs[..k + 1][..k] == toDevs[..k];
      out := out + [r];
    }
    assert toDevs[..|toDevs|] == toDevs;
  }

  method ExpandInput(zones: map<string, seq<string>>, rules: seq<InputRule>) returns (out: seq<NftRule>)
    ensures out == InputAll(zones, rules)
  {
    out := [];
    for i := 0 to |rules|
      invariant out == InputAll(zones, rules[..i])
    {
      assert rules[..i + 1][..i] == rules[..i];
      out := AppendInput(out, Lookup(zones, rules[i].zone), rules[i]);
    }
    assert rules[..|rules|] == rules;
  }

  method AppendInput(before: seq<NftRule>, devs: seq<string>, rule: InputRule) returns (out: seq<NftRule>)
    ensures out == before + InputBlock(devs, rule)
  {
    out := before;
    for j := 0 to |devs|
      invariant out == before + InputBlock(devs[..j], rule)
    {
      var r := BuildInputRule(devs[j], rule);
      assert devs[..j + 1][..j] == devs[..j];
      out := out + [r];
    }
    assert devs[..|devs|] == devs;
  }

  method Render(cfg: SiteConfig) returns (rs: Ruleset)
    ensures rs == Rendered(cfg)
  {
    var input: seq<NftRule>, forward: seq<NftRule>, masquerade: seq<string> := [], [], [];
    var ifs := cfg.interfaces;
    if cfg.firewall.Some? {
      var fw := cfg.firewall.value;
      var zoneDevices := BuildZones(fw.zones, ifs);
      forward := ExpandForward(zoneDevices, fw.forwardRules);
      input := ExpandInput(zoneDevices, fw.inputRules);
    } else {
      for i := 0 to |ifs|
        invariant forward == LanRules(ifs[..i])
      {
        if ifs[i].role == "lan" {
          forward := forward + [NftRule([Iif(ifs[i].device)], "accept", LanComment(ifs[i]))];
        }
        assert ifs[..i + 1][..i] == ifs[..i];
      }
      assert ifs[..|ifs|] == ifs;
    }
    for i := 0 to |ifs|
      invariant masquerade == WanDevices(ifs[..i])
    {
      if ifs[i].role == "wan" {
        masquerade := masquerade + [ifs[i].device];
      }
      assert ifs[..i + 1][..i] == ifs[..i];
    }
    assert ifs[..|ifs|] == ifs;
    rs := Ruleset(input, forward, masquerade);
  }

  /* ---------- What a rendered ruleset does ---------- */

  // Main result, forward chain: the device rules decide every packet as the zone rules do.
  lemma ForwardPreserved(rd: Reading, cfg: SiteConfig, p: Packet)
    requires cfg.firewall.Some?
    ensures ForwardVerdict(rd, Rendered(cfg), p) == ZoneForwardVerdict(rd, cfg.firewall.value, cfg.interfaces, p)
  {
    var fw := cfg.firewall.value;
    EstablishedWins(rd, Rendered(cfg), p);
    ForwardAllMeaning(rd, fw, cfg.interfaces, fw.forwardRules, p);
  }

  // Main result, input chain.
  lemma InputPreserved(rd: Reading, cfg: SiteConfig, p: Packet)
    requires cfg.firewall.Some?
    ensures InputVerdict(rd, Rendered(cfg), p) == ZoneInputVerdict(rd, cfg.firewall.value, cfg.interfaces, p)
  {
    var fw := cfg.firewall.value;
    PreludeWins(rd, Rendered(cfg), p);
    InputAllMeaning(rd, fw, cfg.interfaces, fw.inputRules, p);
  }

  ghost predicate FromLan(ifs: seq<Interface>, p: Packet) {
    exists f :: f in ifs && f.role == "lan" && f.device == p.iif
  }

  ghost predicate ToWan(ifs: seq<Interface>, p: Packet) {
    exists f :: f in ifs && f.role == "wan" && f.device == p.oif
  }

  lemma {:induction false} LanRulesMeaning(rd: Reading, ifs: seq<Interface>, p: Packet)
    ensures FirstMatch(rd, LanRules(ifs), p) == if FromLan(ifs, p) then Some("accept") else None
  {
    if ifs != [] {
      var front, last := ifs[..|ifs| - 1], ifs[|ifs| - 1];
      LanRulesMeaning(rd, front, p);
      assert last in ifs && forall f :: f in ifs <==> f in front || f == last;
      if last.role == "lan" {
        var rule := NftRule([Iif(last.device)], "accept", LanComment(last));
        FirstMatchSnoc(rd, LanRules(front), rule, p);
        assert Iif(last.device) in rule.parts;
        assert AllSatisfied(rd, rule.parts, p) <==> last.device == p.iif;
      } else {
        assert LanRules(ifs) == LanRules(front);
      }
    }
  }

  // Without a firewall section everything that comes in on a LAN device is forwarded, wherever it goes.
  lemma DefaultForward(rd: Reading, cfg: SiteConfig, p: Packet)
    requires cfg.firewall.None?
    ensures ForwardVerdict(rd, Rendered(cfg), p) == Accept <==> p.established || FromLan(cfg.interfaces, p)
    ensures InputVerdict(rd, Rendered(cfg), p) == Accept <==> AlwaysAccepted(p)
  {
    EstablishedWins(rd, Rendered(cfg), p);
    LanRulesMeaning(rd, cfg.interfaces, p);
    PreludeWins(rd, Rendered(cfg), p);
  }

  // The comment beside that branch promises LAN to WAN only. The code keeps the promise for a packet exactly when
  // the packet is established, does not come from a LAN, or goes to a WAN.
  lemma DefaultForwardVersusComment(rd: Reading, cfg: SiteConfig, p: Packet)
    requires cfg.firewall.None?
    ensures (ForwardVerdict(rd, Rendered(cfg), p) == Accept
             <==> p.established || (FromLan(cfg.interfaces, p) && ToWan(cfg.interfaces, p)))
       <==> p.established || !FromLan(cfg.interfaces, p) || ToWan(cfg.interfaces, p)
  {
    DefaultForward(rd, cfg, p);
  }

  // Between any two LAN devices of any configuration without a firewall section it does not.
  lemma LanToLanIsForwarded(rd: Reading, cfg: SiteConfig, a: Interface, b: Interface, p: Packet)
    requires cfg.firewall.None? && DistinctDevices(cfg.interfaces) && a in cfg.interfaces && b in cfg.interfaces
    requires a.role == "lan" && b.role == "lan" && p.iif == a.device && p.oif == b.device && !p.established
    ensures ForwardVerdict(rd, Rendered(cfg), p) == Accept
    ensures FromLan(cfg.interfaces, p) && !ToWan(cfg.interfaces, p)
  {
    DefaultForward(rd, cfg, p);
  }

  // So validation lets through configurations that forward from one LAN to another.
  lemma AcceptedLanToLan(rd: Reading, ifs: seq<Interface>, p: Packet)
    requires Validate.SmallSite(ifs) && p.iif == ifs[1].device && p.oif == ifs[2].device && !p.established
    ensures var cfg := Validate.PlainSite(ifs, None);
            Validate.Accepted(cfg) && !ToWan(ifs, p) && ForwardVerdict(rd, Rendered(cfg), p) == Accept
  {
    Validate.SmallSiteAccepted(ifs, None);
    LanToLanIsForwarded(rd, Validate.PlainSite(ifs, None), ifs[1], ifs[2], p);
  }

  lemma {:induction false} MasqueradeIsWan(ifs: seq<Interface>, device: string)
    ensures device in WanDevices(ifs) <==> exists f :: f in ifs && f.role == "wan" && f.device == device
  {
    if ifs != [] {
      var front, last := ifs[..|ifs| - 1], ifs[|ifs| - 1];
      MasqueradeIsWan(front, device);
      assert last in ifs && forall f :: f in ifs ==> f in front || f == last;
    }
  }
}
