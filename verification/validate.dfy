/**
 Configuration checks (internal/config/validate.go). Each validator walks its part of the configuration with
 seen-sets and collects issues. What it reports is stated as a predicate on single issues: an issue is in the
 list exactly when it holds of the configuration. The lemmas say what an empty list means.
 */
module Validate {
  import opened Text
  import opened Bytes
  import opened IPNet
  import opened Config

  // An issue of the i-th entry, or one of the list as a whole.
  datatype Issue<P> = At(i: nat, problem: P) | Overall(problem: P)

  predicate ValidAddress(a: string) {
    a == "dhcp" || ValidCIDR(a)
  }

  predicate ValidCIDR(s: string) {
    ParseCIDR(s).Some?
  }

  predicate ValidIP(s: string) {
    ParseIP(s).Some?
  }

  /* ---------- Interfaces ---------- */

  datatype InterfaceProblem =
    | NameRequired | DuplicateName | DeviceRequired | DuplicateDevice | BadRole
    | AddressRequired | BadAddress | BadGateway | BadVLAN | UndottedVLAN
    | NoWAN | NoLAN

  function NamesBefore(ifs: seq<Interface>, i: nat): set<string>
    requires i <= |ifs|
  {
    set j | 0 <= j < i :: ifs[j].name
  }

  function DevicesBefore(ifs: seq<Interface>, i: nat): set<string>
    requires i <= |ifs|
  {
    set j | 0 <= j < i :: ifs[j].device
  }

  // Problems with an interface's keys, when `names` and `devices` are in use by earlier interfaces.
  predicate KeyProblem(f: Interface, names: set<string>, devices: set<string>, p: InterfaceProblem) {
    match p
    case NameRequired => f.name == ""
    case DuplicateName => f.name != "" && f.name in names
    case DeviceRequired => f.device == ""
    case DuplicateDevice => f.device != "" && f.device in devices
    case _ => false
  }

  // Problems with its other fields.
  predicate FieldProblem(f: Interface, p: InterfaceProblem) {
    match p
    case BadRole => f.role != "wan" && f.role != "lan"
    case AddressRequired => f.address == ""
    case BadAddress => f.address != "" && !ValidAddress(f.address)
    case BadGateway => f.gateway != "" && !ValidIP(f.gateway)
    case BadVLAN => f.vlan < 0 || f.vlan > 4094
    case UndottedVLAN => f.vlan > 0 && '.' !in f.device
    case _ => false
  }

  ghost predicate HasRole(ifs: seq<Interface>, role: string) {
    exists f :: f in ifs && f.role == role
  }

  ghost predicate InterfaceIssue(ifs: seq<Interface>, e: Issue<InterfaceProblem>) {
    match e
    case At(i, p) =>
      i < |ifs| && (KeyProblem(ifs[i], NamesBefore(ifs, i), DevicesBefore(ifs, i), p) || FieldProblem(ifs[i], p))
    case Overall(p) => (p == NoWAN && !HasRole(ifs, "wan")) || (p == NoLAN && !HasRole(ifs, "lan"))
  }

  predicate FieldsOk(f: Interface) {
    && (f.role == "wan" || f.role == "lan")
    && f.address != "" && ValidAddress(f.address)
    && (f.gateway != "" ==> ValidIP(f.gateway))
    && 0 <= f.vlan <= 4094
    && (f.vlan > 0 ==> '.' in f.device)
  }

  ghost predicate WellFormedInterfaces(ifs: seq<Interface>) {
    && DistinctNames(ifs) && DistinctDevices(ifs)
    && HasRole(ifs, "wan") && HasRole(ifs, "lan")
    && (forall f :: f in ifs ==> f.name != "" && f.device != "" && FieldsOk(f))
  }

  lemma BeforeStep(ifs: seq<Interface>, i: nat)
    requires i < |ifs|
    ensures NamesBefore(ifs, i + 1) == NamesBefore(ifs, i) + {ifs[i].name}
    ensures DevicesBefore(ifs, i + 1) == DevicesBefore(ifs, i) + {ifs[i].device}
    ensures HasRole(ifs[..i + 1], "wan") <==> HasRole(ifs[..i], "wan") || ifs[i].role == "wan"
    ensures HasRole(ifs[..i + 1], "lan") <==> HasRole(ifs[..i], "lan") || ifs[i].role == "lan"
  {
    assert ifs[..i + 1] == ifs[..i] + [ifs[i]];
  }

  method ValidateInterfaces(ifs: seq<Interface>) returns (errs: seq<Issue<InterfaceProblem>>)
    ensures forall e :: e in errs <==> InterfaceIssue(ifs, e)
  {
    errs := [];
    var names: set<string>, devices: set<string> := {}, {};
    var hasWAN, hasLAN := false, false;
    for i := 0 to |ifs|
      invariant forall e :: e in errs <==> e.At? && e.i < i && InterfaceIssue(ifs, e)
      invariant names == NamesBefore(ifs, i) - {""}
      invariant devices == DevicesBefore(ifs, i) - {""}
      invariant hasWAN <==> HasRole(ifs[..i], "wan")
      invariant hasLAN <==> HasRole(ifs[..i], "lan")
    {
      BeforeStep(ifs, i);
      var keyIssues, fieldIssues;
      keyIssues, names, devices := CheckKeys(ifs[i], i, names, devices);
      fieldIssues := CheckFields(ifs[i], i);
      errs := errs + keyIssues + fieldIssues;
      if ifs[i].role == "wan" {
        hasWAN := true;
      } else if ifs[i].role == "lan" {
        hasLAN := true;
      }
    }
    assert ifs[..|ifs|] == ifs;
    if !hasWAN {
      errs := errs + [Overall(NoWAN)];
    }
    if !hasLAN {
      errs := errs + [Overall(NoLAN)];
    }
  }

  // The body of the loop, in two parts.
  method CheckKeys(f: Interface, i: nat, names: set<string>, devices: set<string>)
    returns (errs: seq<Issue<InterfaceProblem>>, names': set<string>, devices': set<string>)
    ensures forall e :: e in errs <==> e.At? && e.i == i && KeyProblem(f, names, devices, e.problem)
    ensures names' == if f.name == "" then names else names + {f.name}
    ensures devices' == if f.device == "" then devices else devices + {f.device}
  {
    errs, names', devices' := [], names, devices;
    if f.name == "" {
      errs := errs + [At(i, NameRequired)];
    } else if f.name in names {
      errs := errs + [At(i, DuplicateName)];
    } else {
      names' := names + {f.name};
    }
    if f.device == "" {
      errs := errs + [At(i, DeviceRequired)];
    } else if f.device in devices {
      errs := errs + [At(i, DuplicateDevice)];
    } else {
      devices' := devices + {f.device};
    }
  }

  method CheckFields(f: Interface, i: nat) returns (errs: seq<Issue<InterfaceProblem>>)
    ensures forall e :: e in errs <==> e.At? && e.i == i && FieldProblem(f, e.problem)
  {
    hide ValidIP, ValidCIDR, ValidAddress;
    var addressing := CheckAddressing(f, i);
    errs := [];
    if f.role != "wan" && f.role != "lan" {
      errs := errs + [At(i, BadRole)];
    }
    errs := errs + addressing;
    if f.vlan < 0 || f.vlan > 4094 {
      errs := errs + [At(i, BadVLAN)];
    }
    if f.vlan > 0 && '.' !in f.device {
      errs := errs + [At(i, UndottedVLAN)];
    }
  }

  method CheckAddressing(f: Interface, i: nat) returns (errs: seq<Issue<InterfaceProblem>>)
    ensures forall e :: e in errs <==> e.At? && e.i == i && FieldProblem(f, e.problem)
                                       && e.problem in {AddressRequired, BadAddress, BadGateway}
  {
    hide ValidIP, ValidCIDR, ValidAddress;
    errs := [];
    if f.address == "" {
      errs := errs + [At(i, AddressRequired)];
    } else if !ValidAddress(f.address) {
      errs := errs + [At(i, BadAddress)];
    }
    if f.gateway != "" && !ValidIP(f.gateway) {
      errs := errs + [At(i, BadGateway)];
    }
  }

  lemma NoKeyProblem(f: Interface, names: set<string>, devices: set<string>)
    ensures (forall p :: !KeyProblem(f, names, devices, p)) <==>
              f.name != "" && f.name !in names && f.device != "" && f.device !in devices
  {
    if forall p :: !KeyProblem(f, names, devices, p) {
      assert !KeyProblem(f, names, devices, NameRequired) && !KeyProblem(f, names, devices, DuplicateName);
      assert !KeyProblem(f, names, devices, DeviceRequired) && !KeyProblem(f, names, devices, DuplicateDevice);
    }
  }

  lemma NoFieldProblem(f: Interface)
    ensures (forall p :: !FieldProblem(f, p)) <==> FieldsOk(f)
  {
    hide ValidIP, ValidAddress;
    if forall p :: !FieldProblem(f, p) {
      assert !FieldProblem(f, BadRole) && !FieldProblem(f, AddressRequired) && !FieldProblem(f, BadAddress);
      assert !FieldProblem(f, BadGateway) && !FieldProblem(f, BadVLAN) && !FieldProblem(f, UndottedVLAN);
    }
  }

  lemma DistinctMeansUnseen(ifs: seq<Interface>)
    ensures DistinctNames(ifs) <==> forall i :: 0 <= i < |ifs| ==> ifs[i].name !in NamesBefore(ifs, i)
    ensures DistinctDevices(ifs) <==> forall i :: 0 <= i < |ifs| ==> ifs[i].device !in DevicesBefore(ifs, i)
  {
  }

  ghost predicate EntryOk(ifs: seq<Interface>, i: nat)
    requires i < |ifs|
  {
    && ifs[i].name != "" && ifs[i].name !in NamesBefore(ifs, i)
    && ifs[i].device != "" && ifs[i].device !in DevicesBefore(ifs, i)
    && FieldsOk(ifs[i])
  }

  lemma NoEntryIssue(ifs: seq<Interface>, i: nat)
    requires i < |ifs|
    ensures (forall p :: !InterfaceIssue(ifs, At(i, p))) <==> EntryOk(ifs, i)
  {
    var f, names, devices := ifs[i], NamesBefore(ifs, i), DevicesBefore(ifs, i);
    NoKeyProblem(f, names, devices);
    NoFieldProblem(f);
    forall p
      ensures InterfaceIssue(ifs, At(i, p)) <==> KeyProblem(f, names, devices, p) || FieldProblem(f, p)
    {
    }
  }

  lemma AllEntriesOk(ifs: seq<Interface>)
    ensures (forall i :: 0 <= i < |ifs| ==> EntryOk(ifs, i)) <==>
              && DistinctNames(ifs) && DistinctDevices(ifs)
              && forall f :: f in ifs ==> f.name != "" && f.device != "" && FieldsOk(f)
  {
    DistinctMeansUnseen(ifs);
    if forall i :: 0 <= i < |ifs| ==> EntryOk(ifs, i) {
      forall i | 0 <= i < |ifs|
        ensures ifs[i].name !in NamesBefore(ifs, i) && ifs[i].device !in DevicesBefore(ifs, i)
      {
        assert EntryOk(ifs, i);
      }
      forall f | f in ifs
        ensures f.name != "" && f.device != "" && FieldsOk(f)
      {
        var i :| 0 <= i < |ifs| && ifs[i] == f;
        assert EntryOk(ifs, i);
      }
    } else {
      var i :| 0 <= i < |ifs| && !EntryOk(ifs, i);
      assert ifs[i] in ifs;
    }
  }

  lemma NoInterfaceIssue(ifs: seq<Interface>)
    ensures (forall e :: !InterfaceIssue(ifs, e)) <==>
              && HasRole(ifs, "wan") && HasRole(ifs, "lan")
              && forall i :: 0 <= i < |ifs| ==> EntryOk(ifs, i)
  {
    forall i | 0 <= i < |ifs|
      ensures (forall p :: !InterfaceIssue(ifs, At(i, p))) <==> EntryOk(ifs, i)
    {
      NoEntryIssue(ifs, i);
    }
    if forall e :: !InterfaceIssue(ifs, e) {
      assert !InterfaceIssue(ifs, Overall(NoWAN)) && !InterfaceIssue(ifs, Overall(NoLAN));
      forall i | 0 <= i < |ifs|
        ensures EntryOk(ifs, i)
      {
        assert forall p :: !InterfaceIssue(ifs, At(i, p));
      }
    } else {
      var e :| InterfaceIssue(ifs, e);
      if e.At? {
        assert !EntryOk(ifs, e.i);
      }
    }
  }

  // Soundness and completeness: no issue is reported exactly for well-formed interfaces.
  lemma InterfacesSoundAndComplete(ifs: seq<Interface>)
    ensures (forall e :: !InterfaceIssue(ifs, e)) <==> WellFormedInterfaces(ifs)
  {
    NoInterfaceIssue(ifs);
    AllEntriesOk(ifs);
  }

  /* ---------- Overlapping subnets ---------- */

  // An interface's static subnet; none for "dhcp", an empty or an unparsable address.
  function StaticNet(f: Interface): Option<Block> {
    if f.address != "" && f.address != "dhcp" then ParseCIDR(f.address) else None
  }

  function StaticNets(ifs: seq<Interface>): seq<Block> {
    if ifs == [] then []
    else
      var last := StaticNet(ifs[|ifs| - 1]);
      StaticNets(ifs[..|ifs| - 1]) + if last.Some? then [last.value] else []
  }

  ghost predicate SubnetsIntersect(f: Interface, g: Interface) {
    StaticNet(f).Some? && StaticNet(g).Some? && Intersect(StaticNet(f).value, StaticNet(g).value)
  }

  method ValidateSubnetOverlaps(ifs: seq<Interface>) returns (errs: seq<(int, int)>)
    ensures var nets := StaticNets(ifs);
            forall i, j :: (i, j) in errs <==> 0 <= i < j < |nets| && TestsOverlap(nets[i], nets[j])
  {
    var nets: seq<Block> := [];
    for k := 0 to |ifs|
      invariant nets == StaticNets(ifs[..k])
    {
      assert ifs[..k + 1][..k] == ifs[..k];
      if ifs[k].address != "" && ifs[k].address != "dhcp" {
        var b := ParseCIDR(ifs[k].address);
        if b.Some? {
          nets := nets + [b.value];
        }
      }
    }
    assert ifs[..|ifs|] == ifs;

    errs := [];
    for a := 0 to |nets|
      invariant forall i, j :: (i, j) in errs <==>
                  0 <= i < j < |nets| && i < a && TestsOverlap(nets[i], nets[j])
    {
      for b := a + 1 to |nets|
          invariant forall i, j :: (i, j) in errs <==>
                    0 <= i < j < |nets| && (i < a || (i == a && j < b)) && TestsOverlap(nets[i], nets[j])
      {
        if TestsOverlap(nets[a], nets[b]) {
          errs := errs + [(a, b)];
        }
      }
    }
  }

  lemma TestIsIntersect(f: Interface, g: Interface)
    requires StaticNet(f).Some? && StaticNet(g).Some?
    ensures TestsOverlap(StaticNet(f).value, StaticNet(g).value) <==> SubnetsIntersect(f, g)
  {
    ParsedIsCIDR(f.address);
    ParsedIsCIDR(g.address);
    OverlapTestsAreExact(StaticNet(f).value, StaticNet(g).value);
  }

  ghost predicate NoneOverlap(nets: seq<Block>) {
    forall i, j :: 0 <= i < j < |nets| ==> !TestsOverlap(nets[i], nets[j])
  }

  ghost predicate SubnetsDisjoint(ifs: seq<Interface>) {
    forall i, j :: 0 <= i < j < |ifs| ==> !SubnetsIntersect(ifs[i], ifs[j])
  }

  lemma {:induction false} StaticNetsMembers(ifs: seq<Interface>, b: Block)
    ensures b in StaticNets(ifs) <==> exists f :: f in ifs && StaticNet(f) == Some(b)
  {
    hide StaticNet;
    if ifs != [] {
      var front, last := ifs[..|ifs| - 1], ifs[|ifs| - 1];
      StaticNetsMembers(front, b);
      assert ifs == front + [last];
    }
  }

  // The validator reports no overlap exactly when the static subnets are pairwise disjoint as address sets.
  lemma {:induction false} OverlapCheckIsExact(ifs: seq<Interface>)
    ensures NoneOverlap(StaticNets(ifs)) <==> SubnetsDisjoint(ifs)
  {
    hide TestsOverlap, SubnetsIntersect;
    if ifs != [] {
      var front, last := ifs[..|ifs| - 1], ifs[|ifs| - 1];
      OverlapCheckIsExact(front);
      assert front + [last] == ifs;
      var apart := forall f :: f in front ==> !SubnetsIntersect(f, last);
      assert SubnetsDisjoint(ifs) <==> SubnetsDisjoint(front) && apart by {
        AddInterface(front, last);
      }
      assert NoneOverlap(StaticNets(ifs)) <==> NoneOverlap(StaticNets(front)) && apart by {
        AddStaticNet(front, last);
      }
    }
  }

  lemma AddStaticNet(front: seq<Interface>, last: Interface)
    ensures NoneOverlap(StaticNets(front + [last])) <==>
              NoneOverlap(StaticNets(front)) && forall f :: f in front ==> !SubnetsIntersect(f, last)
  {
    assert (front + [last])[..|front|] == front;
    if StaticNet(last).Some? {
      AddNet(StaticNets(front), StaticNet(last).value);
      LastAgainstRest(front, last);
    } else {
      assert StaticNets(front + [last]) == StaticNets(front);
    }
  }

  lemma AddNet(nets: seq<Block>, b: Block)
    ensures NoneOverlap(nets + [b]) <==> NoneOverlap(nets) && forall c :: c in nets ==> !TestsOverlap(c, b)
  {
    var all := nets + [b];
    assert forall i :: 0 <= i < |nets| ==> all[i] == nets[i];
    if NoneOverlap(all) {
      forall c | c in nets
        ensures !TestsOverlap(c, b)
      {
        var i :| 0 <= i < |nets| && nets[i] == c;
        assert !TestsOverlap(all[i], all[|nets|]);
      }
      assert forall i, j :: 0 <= i < j < |nets| ==> !TestsOverlap(all[i], all[j]);
    }
  }

  lemma AddInterface(ifs: seq<Interface>, g: Interface)
    ensures SubnetsDisjoint(ifs + [g]) <==>
              SubnetsDisjoint(ifs) && forall f :: f in ifs ==> !SubnetsIntersect(f, g)
  {
    var all := ifs + [g];
    assert forall i :: 0 <= i < |ifs| ==> all[i] == ifs[i];
    if SubnetsDisjoint(all) {
      forall f | f in ifs
        ensures !SubnetsIntersect(f, g)
      {
        var i :| 0 <= i < |ifs| && ifs[i] == f;
        assert !SubnetsIntersect(all[i], all[|ifs|]);
      }
      assert forall i, j :: 0 <= i < j < |ifs| ==> !SubnetsIntersect(all[i], all[j]);
    }
  }

  lemma LastAgainstRest(front: seq<Interface>, last: Interface)
    requires StaticNet(last).Some?
    ensures (forall c :: c in StaticNets(front) ==> !TestsOverlap(c, StaticNet(last).value))
       <==> (forall f :: f in front ==> !SubnetsIntersect(f, last))
  {
    var b := StaticNet(last).value;
    forall f | f in front && StaticNet(f).Some?
      ensures StaticNet(f).value in StaticNets(front)
      ensures TestsOverlap(StaticNet(f).value, b) <==> SubnetsIntersect(f, last)
    {
      StaticNetsMembers(front, StaticNet(f).value);
      TestIsIntersect(f, last);
    }
    forall c | c in StaticNets(front)
      ensures exists f :: f in front && StaticNet(f) == Some(c)
    {
      StaticNetsMembers(front, c);
    }
  }

  /* ---------- DHCP ---------- */

  function InterfaceNames(ifs: seq<Interface>): set<string> {
    set f | f in ifs :: f.name
  }

  datatype SubnetProblem =
    | BadSubnet | UnknownInterface
    | PoolStartRequired | BadPoolStart | PoolStartOutside
    | PoolEndRequired | BadPoolEnd | PoolEndOutside
    | GatewayRequired | BadSubnetGateway | BadDNSServer(j: nat)

  // A pool bound lies outside the subnet; not reported when the subnet itself did not parse.
  predicate Outside(bound: string, subnet: string) {
    ValidIP(bound) && ValidCIDR(subnet) && !Contains(ParseCIDR(subnet).value, ParseIP(bound).value)
  }

  predicate SubnetIssue(sub: DHCPSubnet, names: set<string>, p: SubnetProblem) {
    match p
    case BadSubnet => !ValidCIDR(sub.subnet)
    case UnknownInterface => sub.iface != "" && sub.iface !in names
    case PoolStartRequired => sub.poolStart == ""
    case BadPoolStart => sub.poolStart != "" && !ValidIP(sub.poolStart)
    case PoolStartOutside => sub.poolStart != "" && Outside(sub.poolStart, sub.subnet)
    case PoolEndRequired => sub.poolEnd == ""
    case BadPoolEnd => sub.poolEnd != "" && !ValidIP(sub.poolEnd)
    case PoolEndOutside => sub.poolEnd != "" && Outside(sub.poolEnd, sub.subnet)
    case GatewayRequired => sub.gateway == ""
    case BadSubnetGateway => sub.gateway != "" && !ValidIP(sub.gateway)
    case BadDNSServer(j) => j < |sub.dnsServers| && !ValidIP(sub.dnsServers[j])
  }

  method ValidateDHCP(dhcp: DHCPConfig, ifs: seq<Interface>) returns (errs: seq<Issue<SubnetProblem>>)
    ensures forall e :: e in errs <==>
              && dhcp.enabled && e.At? && e.i < |dhcp.subnets|
              && SubnetIssue(dhcp.subnets[e.i], InterfaceNames(ifs), e.problem)
  {
    errs := [];
    if !dhcp.enabled {
      return;
    }
    var names := InterfaceNames(ifs);
    for i := 0 to |dhcp.subnets|
      invariant forall e :: e in errs <==> e.At? && e.i < i && SubnetIssue(dhcp.subnets[e.i], names, e.problem)
    {
      var sub := dhcp.subnets[i];
      var network := CheckNetwork(sub, names, i);
      var start := CheckPoolStart(sub, names, i);
      var end := CheckPoolEnd(sub, names, i);
      var servers := CheckServers(sub, names, i);
      errs := errs + network + start + end + servers;
    }
  }

  method CheckNetwork(sub: DHCPSubnet, names: set<string>, i: nat) returns (errs: seq<Issue<SubnetProblem>>)
    ensures forall e :: e in errs <==>
              && e.At? && e.i == i && SubnetIssue(sub, names, e.problem)
              && (e.problem.BadSubnet? || e.problem.UnknownInterface?)
  {
    hide ValidIP, ValidCIDR;
    errs := [];
    if !ValidCIDR(sub.subnet) {
      errs := errs + [At(i, BadSubnet)];
    }
    if sub.iface != "" && sub.iface !in names {
      errs := errs + [At(i, UnknownInterface)];
    }
  }

  method CheckPoolStart(sub: DHCPSubnet, names: set<string>, i: nat) returns (errs: seq<Issue<SubnetProblem>>)
    ensures forall e :: e in errs <==>
              && e.At? && e.i == i && SubnetIssue(sub, names, e.problem)
              && (e.problem.PoolStartRequired? || e.problem.BadPoolStart? || e.problem.PoolStartOutside?)
  {
    hide ValidIP, ValidCIDR;
    errs := [];
    if sub.poolStart == "" {
      errs := [At(i, PoolStartRequired)];
    } else if !ValidIP(sub.poolStart) {
      errs := [At(i, BadPoolStart)];
    } else if Outside(sub.poolStart, sub.subnet) {
      errs := [At(i, PoolStartOutside)];
    }
  }

  method CheckPoolEnd(sub: DHCPSubnet, names: set<string>, i: nat) returns (errs: seq<Issue<SubnetProblem>>)
    ensures forall e :: e in errs <==>
              && e.At? && e.i == i && SubnetIssue(sub, names, e.problem)
              && (e.problem.PoolEndRequired? || e.problem.BadPoolEnd? || e.problem.PoolEndOutside?)
  {
    hide ValidIP, ValidCIDR;
    errs := [];
    if sub.poolEnd == "" {
      errs := [At(i, PoolEndRequired)];
    } else if !ValidIP(sub.poolEnd) {
      errs := [At(i, BadPoolEnd)];
    } else if Outside(sub.poolEnd, sub.subnet) {
      errs := [At(i, PoolEndOutside)];
    }
  }

  method CheckServers(sub: DHCPSubnet, names: set<string>, i: nat) returns (errs: seq<Issue<SubnetProblem>>)
    ensures forall e :: e in errs <==>
              && e.At? && e.i == i && SubnetIssue(sub, names, e.problem)
              && (e.problem.GatewayRequired? || e.problem.BadSubnetGateway? || e.problem.BadDNSServer?)
  {
    hide ValidIP, ValidCIDR;
    errs := [];
    if sub.gateway == "" {
      errs := [At(i, GatewayRequired)];
    } else if !ValidIP(sub.gateway) {
      errs := [At(i, BadSubnetGateway)];
    }
    for j := 0 to |sub.dnsServers|
      invariant forall e :: e in errs <==>
                  && e.At? && e.i == i && SubnetIssue(sub, names, e.problem)
                  && (e.problem.GatewayRequired? || e.problem.BadSubnetGateway?
                      || (e.problem.BadDNSServer? && e.problem.j < j))
    {
      if !ValidIP(sub.dnsServers[j]) {
        errs := errs + [At(i, BadDNSServer(j))];
      }
    }
  }

  // An accepted subnet parses, and so do its pool bounds, which it contains.
  lemma AcceptedBounds(sub: DHCPSubnet, names: set<string>)
    requires forall p :: !SubnetIssue(sub, names, p)
    ensures ValidCIDR(sub.subnet) && ValidIP(sub.poolStart) && ValidIP(sub.poolEnd)
    ensures !Outside(sub.poolStart, sub.subnet) && !Outside(sub.poolEnd, sub.subnet)
  {
    hide ValidIP, ValidCIDR, Outside;
    assert !SubnetIssue(sub, names, BadSubnet);
    AcceptedStart(sub, names);
    AcceptedEnd(sub, names);
  }

  lemma AcceptedStart(sub: DHCPSubnet, names: set<string>)
    requires !SubnetIssue(sub, names, PoolStartRequired) && !SubnetIssue(sub, names, BadPoolStart)
    requires !SubnetIssue(sub, names, PoolStartOutside)
    ensures ValidIP(sub.poolStart) && !Outside(sub.poolStart, sub.subnet)
  {
    hide ValidIP, Outside;
    assert sub.poolStart != "";
  }

  lemma AcceptedEnd(sub: DHCPSubnet, names: set<string>)
    requires !SubnetIssue(sub, names, PoolEndRequired) && !SubnetIssue(sub, names, BadPoolEnd)
    requires !SubnetIssue(sub, names, PoolEndOutside)
    ensures ValidIP(sub.poolEnd) && !Outside(sub.poolEnd, sub.subnet)
  {
    hide ValidIP, Outside;
  }

  // Every address of the bounds' kind numerically between them belongs to the subnet of an accepted pool, whatever
  // the prefix length.
  lemma AcceptedPoolIsInside(sub: DHCPSubnet, names: set<string>, x: IP)
    requires forall p :: !SubnetIssue(sub, names, p)
    requires ValidIP(sub.poolStart) && ValidIP(sub.poolEnd)
    requires |x| == |ParseIP(sub.poolStart).value|
    requires Num(ParseIP(sub.poolStart).value) <= Num(x) <= Num(ParseIP(sub.poolEnd).value)
    ensures ValidCIDR(sub.subnet) && Contains(ParseCIDR(sub.subnet).value, x)
  {
    AcceptedBounds(sub, names);
    ParsedIsCIDR(sub.subnet);
    BlockIsConvex(ParseCIDR(sub.subnet).value, ParseIP(sub.poolStart).value, ParseIP(sub.poolEnd).value, x);
  }

  // A bound that parses is reported as outside exactly when it differs from the subnet's address on the leading bits
  // that the prefix length counts, or is of the other family.
  lemma OutsideExactlyWhen(bound: string, x: IP, subnet: string, net: seq<Octet>, ones: nat)
    requires ParseIP(bound) == Some(x) && ParsePrefix(subnet) == Some((net, ones))
    ensures Outside(bound, subnet) <==> !Leads(net, ones, x)
  {
    hide ParseIP, ParsePrefix, Contains, MakeBlock, Leads;
    BlockOfText(subnet, net, ones, x);
  }

  // So every accepted pool has bounds with the subnet's leading bits.
  lemma AcceptedBoundsLead(sub: DHCPSubnet, names: set<string>, lo: IP, hi: IP, net: seq<Octet>,
                            ones: nat)
    requires WellFormedSubnet(sub, names)
    requires ParseIP(sub.poolStart) == Some(lo) && ParseIP(sub.poolEnd) == Some(hi)
    requires ParsePrefix(sub.subnet) == Some((net, ones))
    ensures Leads(net, ones, lo) && Leads(net, ones, hi)
  {
    hide ParseIP, ParsePrefix, Contains, MakeBlock, Leads;
    OutsideExactlyWhen(sub.poolStart, lo, sub.subnet, net, ones);
    OutsideExactlyWhen(sub.poolEnd, hi, sub.subnet, net, ones);
  }

  // A subnet as it should be.
  ghost predicate WellFormedSubnet(sub: DHCPSubnet, names: set<string>) {
    && ParseCIDR(sub.subnet).Some? && (sub.iface != "" ==> sub.iface in names)
    && ParseIP(sub.poolStart).Some? && Contains(ParseCIDR(sub.subnet).value, ParseIP(sub.poolStart).value)
    && ParseIP(sub.poolEnd).Some? && Contains(ParseCIDR(sub.subnet).value, ParseIP(sub.poolEnd).value)
    && ParseIP(sub.gateway).Some? && forall s :: s in sub.dnsServers ==> ParseIP(s).Some?
  }

  // No issue is reported exactly for such subnets.
  lemma SubnetSoundAndComplete(sub: DHCPSubnet, names: set<string>)
    ensures (forall p :: !SubnetIssue(sub, names, p)) <==> WellFormedSubnet(sub, names)
  {
    hide ParseIP, ParsePrefix, Contains, MakeBlock;
    EmptyIsNoIP();
    if forall p :: !SubnetIssue(sub, names, p) {
      AcceptedBounds(sub, names);
      AcceptedServers(sub, names);
    } else {
      var p :| SubnetIssue(sub, names, p);
      if WellFormedSubnet(sub, names) {
        WellFormedHasNone(sub, names, p);
      }
    }
  }

  lemma EmptyIsNoIP()
    ensures ParseIP("") == None
  {
    assert IndexOf("", '.') == 0;
  }

  lemma AcceptedServers(sub: DHCPSubnet, names: set<string>)
    requires forall p :: !SubnetIssue(sub, names, p)
    ensures ValidIP(sub.gateway) && forall s :: s in sub.dnsServers ==> ValidIP(s)
    ensures sub.iface != "" ==> sub.iface in names
  {
    hide ValidIP, ValidCIDR, Outside;
    assert !SubnetIssue(sub, names, GatewayRequired) && !SubnetIssue(sub, names, BadSubnetGateway);
    assert !SubnetIssue(sub, names, UnknownInterface);
    forall s | s in sub.dnsServers
      ensures ValidIP(s)
    {
      var j :| 0 <= j < |sub.dnsServers| && sub.dnsServers[j] == s;
      assert !SubnetIssue(sub, names, BadDNSServer(j));
    }
  }

  lemma WellFormedHasNone(sub: DHCPSubnet, names: set<string>, p: SubnetProblem)
    requires WellFormedSubnet(sub, names)
    ensures !SubnetIssue(sub, names, p)
  {
    hide ParseIP, ParsePrefix, Contains, MakeBlock;
    EmptyIsNoIP();
  }

  /* ---------- DNS ---------- */

  datatype DNSProblem = BadForwarder(i: nat) | BadAllowFrom(i: nat)

  predicate DNSIssue(dns: DNSConfig, p: DNSProblem) {
    && dns.enabled
    && match p
       case BadForwarder(i) => i < |dns.forwarders| && !ValidIP(dns.forwarders[i])
       case BadAllowFrom(i) => i < |dns.allowFrom| && !ValidCIDR(dns.allowFrom[i])
  }

  ghost predicate WellFormedDNS(dns: DNSConfig) {
    dns.enabled ==>
      (forall f :: f in dns.forwarders ==> ValidIP(f)) && (forall a :: a in dns.allowFrom ==> ValidCIDR(a))
  }

  method ValidateDNS(dns: DNSConfig) returns (errs: seq<DNSProblem>)
    ensures forall p :: p in errs <==> DNSIssue(dns, p)
  {
    hide ValidIP, ValidCIDR;
    errs := [];
    if !dns.enabled {
      return;
    }
    for i := 0 to |dns.forwarders|
      invariant forall p :: p in errs <==> p.BadForwarder? && p.i < i && DNSIssue(dns, p)
    {
      if !ValidIP(dns.forwarders[i]) {
        errs := errs + [BadForwarder(i)];
      }
    }
    for i := 0 to |dns.allowFrom|
      invariant forall p :: p in errs <==> DNSIssue(dns, p) && (p.BadAllowFrom? ==> p.i < i)
    {
      if !ValidCIDR(dns.allowFrom[i]) {
        errs := errs + [BadAllowFrom(i)];
      }
    }
  }

  lemma DNSSoundAndComplete(dns: DNSConfig)
    ensures (forall p :: !DNSIssue(dns, p)) <==> WellFormedDNS(dns)
  {
    hide ValidIP, ValidCIDR;
    if dns.enabled && forall p :: !DNSIssue(dns, p) {
      forall f | f in dns.forwarders
        ensures ValidIP(f)
      {
        var i :| 0 <= i < |dns.forwarders| && dns.forwarders[i] == f;
        assert !DNSIssue(dns, BadForwarder(i));
      }
      forall a | a in dns.allowFrom
        ensures ValidCIDR(a)
      {
        var i :| 0 <= i < |dns.allowFrom| && dns.allowFrom[i] == a;
        assert !DNSIssue(dns, BadAllowFrom(i));
      }
    }
  }

  /* ---------- Firewall ---------- */

  predicate ValidAction(action: string) {
    var a := ToLower(action);
    a == "accept" || a == "drop"
  }

  ghost predicate SameUpToCase(s: string, lower: string) {
    && |s| == |lower|
    && forall i :: 0 <= i < |s| ==> s[i] == lower[i] || ('A' <= s[i] <= 'Z' && s[i] as int + 32 == lower[i] as int)
  }

  // Valid actions are "accept" and "drop", in any mixture of capitals and small letters.
  lemma ActionMeaning(action: string)
    ensures ValidAction(action) <==> SameUpToCase(action, "accept") || SameUpToCase(action, "drop")
  {
    LowerIs(action, "accept");
    LowerIs(action, "drop");
  }

  lemma LowerIs(s: string, lower: string)
    requires forall c :: c in lower ==> 'a' <= c <= 'z'
    ensures ToLower(s) == lower <==> SameUpToCase(s, lower)
  {
    if ToLower(s) == lower {
      forall i | 0 <= i < |s|
        ensures s[i] == lower[i] || ('A' <= s[i] <= 'Z' && s[i] as int + 32 == lower[i] as int)
      {
        assert ToLower(s)[i] == lower[i];
      }
    }
    if SameUpToCase(s, lower) {
      forall i | 0 <= i < |s|
        ensures ToLower(s)[i] == lower[i]
      {
        assert lower[i] in lower;
      }
    }
  }

  function ZoneNames(zones: seq<FirewallZone>): set<string> {
    (set z | z in zones :: z.name) - {""}
  }

  datatype FirewallProblem =
    | ZoneNameRequired(i: nat) | UnknownMember(i: nat, j: nat)
    | UnknownFrom(i: nat) | UnknownTo(i: nat) | BadForwardAction(i: nat)
    | UnknownZone(i: nat) | BadInputAction(i: nat)

  predicate FirewallIssue(fw: Firewall, names: set<string>, p: FirewallProblem) {
    match p
    case ZoneNameRequired(i) => i < |fw.zones| && fw.zones[i].name == ""
    case UnknownMember(i, j) =>
      i < |fw.zones| && j < |fw.zones[i].interfaces| && fw.zones[i].interfaces[j] !in names
    case UnknownFrom(i) => i < |fw.forwardRules| && fw.forwardRules[i].from !in ZoneNames(fw.zones)
    case UnknownTo(i) => i < |fw.forwardRules| && fw.forwardRules[i].to !in ZoneNames(fw.zones)
    case BadForwardAction(i) => i < |fw.forwardRules| && !ValidAction(fw.forwardRules[i].action)
    case UnknownZone(i) => i < |fw.inputRules| && fw.inputRules[i].zone !in ZoneNames(fw.zones)
    case BadInputAction(i) => i < |fw.inputRules| && !ValidAction(fw.inputRules[i].action)
  }

  ghost predicate WellFormedFirewall(fw: Firewall, names: set<string>) {
    && (forall z :: z in fw.zones ==> z.name != "" && forall m :: m in z.interfaces ==> m in names)
    && (forall r :: r in fw.forwardRules ==>
          (exists z :: z in fw.zones && z.name == r.from) && (exists z :: z in fw.zones && z.name == r.to)
          && ValidAction(r.action))
    && (forall r :: r in fw.inputRules ==> (exists z :: z in fw.zones && z.name == r.zone) && ValidAction(r.action))
  }

  method ValidateFirewall(fw: Firewall, ifs: seq<Interface>) returns (errs: seq<FirewallProblem>)
    ensures forall p :: p in errs <==> FirewallIssue(fw, InterfaceNames(ifs), p)
  {
    var names := InterfaceNames(ifs);
    var zoneErrs, zoneNames := CheckZones(fw, names);
    var forwardErrs := CheckForwardRules(fw, names, zoneNames);
    var inputErrs := CheckInputRules(fw, names, zoneNames);
    errs := zoneErrs + forwardErrs + inputErrs;
  }

  method CheckZones(fw: Firewall, names: set<string>) returns (errs: seq<FirewallProblem>, zoneNames: set<string>)
    ensures zoneNames == ZoneNames(fw.zones)
    ensures forall p :: p in errs <==> (p.ZoneNameRequired? || p.UnknownMember?) && FirewallIssue(fw, names, p)
  {
    errs, zoneNames := [], {};
    for i := 0 to |fw.zones|
      invariant zoneNames == ZoneNames(fw.zones[..i])
      invariant forall p :: p in errs <==>
                  (p.ZoneNameRequired? || p.UnknownMember?) && p.i < i && FirewallIssue(fw, names, p)
    {
      assert fw.zones[..i + 1] == fw.zones[..i] + [fw.zones[i]];
      if fw.zones[i].name == "" {
        errs := errs + [ZoneNameRequired(i)];
      } else {
        zoneNames := zoneNames + {fw.zones[i].name};
      }
      for j := 0 to |fw.zones[i].interfaces|
        invariant forall p :: p in errs <==>
                    && ((p.ZoneNameRequired? && p.i <= i) || (p.UnknownMember? && (p.i < i || (p.i == i && p.j < j))))
                    && FirewallIssue(fw, names, p)
      {
        if fw.zones[i].interfaces[j] !in names {
          errs := errs + [UnknownMember(i, j)];
        }
      }
    }
    assert fw.zones[..|fw.zones|] == fw.zones;
  }

  method CheckForwardRules(fw: Firewall, names: set<string>, zoneNames: set<string>)
    returns (errs: seq<FirewallProblem>)
    requires zoneNames == ZoneNames(fw.zones)
    ensures forall p :: p in errs <==>
              (p.UnknownFrom? || p.UnknownTo? || p.BadForwardAction?) && FirewallIssue(fw, names, p)
  {
    errs := [];
    for i := 0 to |fw.forwardRules|
      invariant forall p :: p in errs <==>
                  (p.UnknownFrom? || p.UnknownTo? || p.BadForwardAction?) && p.i < i && FirewallIssue(fw, names, p)
    {
      var rule := fw.forwardRules[i];
      if rule.from !in zoneNames {
        errs := errs + [UnknownFrom(i)];
      }
      if rule.to !in zoneNames {
        errs := errs + [UnknownTo(i)];
      }
      if !ValidAction(rule.action) {
        errs := errs + [BadForwardAction(i)];
      }
    }
  }

  method CheckInputRules(fw: Firewall, names: set<string>, zoneNames: set<string>)
    returns (errs: seq<FirewallProblem>)
    requires zoneNames == ZoneNames(fw.zones)
    ensures forall p :: p in errs <==> (p.UnknownZone? || p.BadInputAction?) && FirewallIssue(fw, names, p)
  {
    errs := [];
    for i := 0 to |fw.inputRules|
      invariant forall p :: p in errs <==>
                  (p.UnknownZone? || p.BadInputAction?) && p.i < i && FirewallIssue(fw, names, p)
    {
      var rule := fw.inputRules[i];
      if rule.zone !in zoneNames {
        errs := errs + [UnknownZone(i)];
      }
      if !ValidAction(rule.action) {
        errs := errs + [BadInputAction(i)];
      }
    }
  }

  // No issue is reported exactly when every reference resolves and every action is known.
  lemma FirewallSoundAndComplete(fw: Firewall, names: set<string>)
    ensures (forall p :: !FirewallIssue(fw, names, p)) <==> WellFormedFirewall(fw, names)
  {
    if forall p :: !FirewallIssue(fw, names, p) {
      forall i | 0 <= i < |fw.zones|
        ensures fw.zones[i].name != "" && forall m :: m in fw.zones[i].interfaces ==> m in names
      {
        assert !FirewallIssue(fw, names, ZoneNameRequired(i));
        forall j | 0 <= j < |fw.zones[i].interfaces|
          ensures fw.zones[i].interfaces[j] in names
        {
          assert !FirewallIssue(fw, names, UnknownMember(i, j));
        }
      }
      forall i | 0 <= i < |fw.forwardRules|
        ensures var r := fw.forwardRules[i];
                r.from in ZoneNames(fw.zones) && r.to in ZoneNames(fw.zones) && ValidAction(r.action)
      {
        assert !FirewallIssue(fw, names, UnknownFrom(i)) && !FirewallIssue(fw, names, UnknownTo(i));
        assert !FirewallIssue(fw, names, BadForwardAction(i));
      }
      forall i | 0 <= i < |fw.inputRules|
        ensures var r := fw.inputRules[i]; r.zone in ZoneNames(fw.zones) && ValidAction(r.action)
      {
        assert !FirewallIssue(fw, names, UnknownZone(i)) && !FirewallIssue(fw, names, BadInputAction(i));
      }
    }
  }

  /* ---------- Policy routing ---------- */

  datatype PBRProblem = PBRNameRequired | UnknownPBRInterface | BadPBRSource | DuplicatePriority

  function PrioritiesBefore(pbr: seq<PBRRule>, i: nat): set<int>
    requires i <= |pbr|
  {
    set j | 0 <= j < i :: pbr[j].priority
  }

  predicate PBRIssue(rule: PBRRule, names: set<string>, used: set<int>, p: PBRProblem) {
    match p
    case PBRNameRequired => rule.name == ""
    case UnknownPBRInterface => rule.iface != "" && rule.iface !in names
    case BadPBRSource => rule.source != "" && !ValidCIDR(rule.source)
    case DuplicatePriority => rule.priority in used
  }

  method ValidatePBR(pbr: seq<PBRRule>, ifs: seq<Interface>) returns (errs: seq<Issue<PBRProblem>>)
    ensures forall e :: e in errs <==>
              && e.At? && e.i < |pbr|
              && PBRIssue(pbr[e.i], InterfaceNames(ifs), PrioritiesBefore(pbr, e.i), e.problem)
  {
    errs := [];
    var names := InterfaceNames(ifs);
    var priorities: map<int, string> := map[];
    for i := 0 to |pbr|
      invariant priorities.Keys == PrioritiesBefore(pbr, i)
      invariant forall e :: e in errs <==>
                  && e.At? && e.i < i
                  && PBRIssue(pbr[e.i], names, PrioritiesBefore(pbr, e.i), e.problem)
    {
      assert PrioritiesBefore(pbr, i + 1) == PrioritiesBefore(pbr, i) + {pbr[i].priority};
      var found := CheckPBRRule(pbr[i], names, priorities, i);
      errs := errs + found;
      if pbr[i].priority !in priorities {
        priorities := priorities[pbr[i].priority := pbr[i].name];
      }
    }
  }

  method CheckPBRRule(rule: PBRRule, names: set<string>, priorities: map<int, string>, i: nat)
    returns (errs: seq<Issue<PBRProblem>>)
    ensures forall e :: e in errs <==> e.At? && e.i == i && PBRIssue(rule, names, priorities.Keys, e.problem)
  {
    hide ValidIP, ValidCIDR;
    var reference := CheckPBRReference(rule, names, priorities, i);
    errs := reference;
    if rule.source != "" && !ValidCIDR(rule.source) {
      errs := errs + [At(i, BadPBRSource)];
    }
    if rule.priority in priorities {
      errs := errs + [At(i, DuplicatePriority)];
    }
  }

  method CheckPBRReference(rule: PBRRule, names: set<string>, priorities: map<int, string>, i: nat)
    returns (errs: seq<Issue<PBRProblem>>)
    ensures forall e :: e in errs <==>
              && e.At? && e.i == i && PBRIssue(rule, names, priorities.Keys, e.problem)
              && (e.problem.PBRNameRequired? || e.problem.UnknownPBRInterface?)
  {
    errs := [];
    if rule.name == "" {
      errs := errs + [At(i, PBRNameRequired)];
    }
    if rule.iface != "" && rule.iface !in names {
      errs := errs + [At(i, UnknownPBRInterface)];
    }
  }

  ghost predicate WellFormedPBR(pbr: seq<PBRRule>, names: set<string>) {
    && (forall i, j :: 0 <= i < j < |pbr| ==> pbr[i].priority != pbr[j].priority)
    && (forall r :: r in pbr ==>
          && r.name != "" && (r.iface != "" ==> r.iface in names)
          && (r.source != "" ==> ValidCIDR(r.source)))
  }

  lemma PBRSoundAndComplete(pbr: seq<PBRRule>, names: set<string>)
    ensures (forall i, p :: 0 <= i < |pbr| ==> !PBRIssue(pbr[i], names, PrioritiesBefore(pbr, i), p))
       <==> WellFormedPBR(pbr, names)
  {
    hide ValidIP, ValidCIDR;
    assert forall i, j :: 0 <= i < j < |pbr| ==> pbr[i].priority in PrioritiesBefore(pbr, j);
    if forall i, p :: 0 <= i < |pbr| ==> !PBRIssue(pbr[i], names, PrioritiesBefore(pbr, i), p) {
      forall i | 0 <= i < |pbr|
        ensures pbr[i].name != "" && (pbr[i].iface != "" ==> pbr[i].iface in names)
        ensures pbr[i].source != "" ==> ValidCIDR(pbr[i].source)
        ensures pbr[i].priority !in PrioritiesBefore(pbr, i)
      {
        var used := PrioritiesBefore(pbr, i);
        assert !PBRIssue(pbr[i], names, used, PBRNameRequired) && !PBRIssue(pbr[i], names, used, BadPBRSource);
        assert !PBRIssue(pbr[i], names, used, UnknownPBRInterface) && !PBRIssue(pbr[i], names, used, DuplicatePriority);
      }
    }
  }

  /* ---------- The whole configuration ---------- */

  ghost predicate Accepted(c: SiteConfig) {
    && c.hostname != "" && c.interfaces != []
    && WellFormedInterfaces(c.interfaces)
    && SubnetsDisjoint(c.interfaces)
    && (c.dhcp.Some? ==> WellFormedDHCP(c.dhcp.value, InterfaceNames(c.interfaces)))
    && (c.dns.Some? ==> WellFormedDNS(c.dns.value))
    && (c.firewall.Some? ==> WellFormedFirewall(c.firewall.value, InterfaceNames(c.interfaces)))
    && WellFormedPBR(c.pbr, InterfaceNames(c.interfaces))
  }

  ghost predicate WellFormedDHCP(dhcp: DHCPConfig, names: set<string>) {
    dhcp.enabled ==> forall sub :: sub in dhcp.subnets ==> WellFormedSubnet(sub, names)
  }

  // No error of any kind is found exactly for the configurations described by Accepted.
  method Validate(c: SiteConfig) returns (ok: bool)
    ensures ok <==> Accepted(c)
  {
    var required := c.hostname != "" && c.interfaces != [];
    var interfaces := InterfacesOk(c.interfaces);
    var subnets := SubnetsOk(c.interfaces);
    var dhcp := DHCPOk(c);
    var dns := DNSOk(c);
    var firewall := FirewallOk(c);
    var pbr := PBROk(c);
    ok := required && interfaces && subnets && dhcp && dns && firewall && pbr;
  }

  method InterfacesOk(ifs: seq<Interface>) returns (ok: bool)
    ensures ok <==> WellFormedInterfaces(ifs)
  {
    var errs := ValidateInterfaces(ifs);
    ok := errs == [];
    InterfacesSoundAndComplete(ifs);
    NoneListed(errs);
  }

  lemma NoneListed<T>(errs: seq<T>)
    ensures errs == [] <==> forall e :: e !in errs
  {
    if errs != [] {
      assert errs[0] in errs;
    }
  }

  method SubnetsOk(ifs: seq<Interface>) returns (ok: bool)
    ensures ok <==> SubnetsDisjoint(ifs)
  {
    var errs := ValidateSubnetOverlaps(ifs);
    ok := errs == [];
    OverlapCheckIsExact(ifs);
    NoPairMeansNoOverlap(StaticNets(ifs), errs);
  }

  lemma NoPairMeansNoOverlap(nets: seq<Block>, errs: seq<(int, int)>)
    requires forall i, j :: (i, j) in errs <==> 0 <= i < j < |nets| && TestsOverlap(nets[i], nets[j])
    ensures errs == [] <==> NoneOverlap(nets)
  {
    if errs != [] {
      var (i, j) := errs[0];
      assert (i, j) in errs;
    }
  }

  method DHCPOk(c: SiteConfig) returns (ok: bool)
    ensures ok <==> (c.dhcp.Some? ==> WellFormedDHCP(c.dhcp.value, InterfaceNames(c.interfaces)))
  {
    ok := true;
    if c.dhcp.Some? {
      var errs := ValidateDHCP(c.dhcp.value, c.interfaces);
      ok := errs == [];
      NoneListed(errs);
      DHCPSoundAndComplete(c.dhcp.value, InterfaceNames(c.interfaces), errs);
    }
  }

  lemma DHCPSoundAndComplete(dhcp: DHCPConfig, names: set<string>, errs: seq<Issue<SubnetProblem>>)
    requires forall e :: e in errs <==>
               && dhcp.enabled && e.At? && e.i < |dhcp.subnets|
               && SubnetIssue(dhcp.subnets[e.i], names, e.problem)
    ensures (forall e :: e !in errs) <==> WellFormedDHCP(dhcp, names)
  {
    hide SubnetIssue, WellFormedSubnet;
    forall sub
      ensures (forall p :: !SubnetIssue(sub, names, p)) <==> WellFormedSubnet(sub, names)
    {
      SubnetSoundAndComplete(sub, names);
    }
    if dhcp.enabled && forall e :: e !in errs {
      forall sub | sub in dhcp.subnets
        ensures WellFormedSubnet(sub, names)
      {
        var i :| 0 <= i < |dhcp.subnets| && dhcp.subnets[i] == sub;
        assert forall p :: SubnetIssue(sub, names, p) ==> At(i, p) in errs;
      }
    }
    if e :| e in errs {
      assert dhcp.subnets[e.i] in dhcp.subnets;
    }
  }

  method DNSOk(c: SiteConfig) returns (ok: bool)
    ensures ok <==> (c.dns.Some? ==> WellFormedDNS(c.dns.value))
  {
    ok := true;
    if c.dns.Some? {
      var errs := ValidateDNS(c.dns.value);
      ok := errs == [];
      DNSSoundAndComplete(c.dns.value);
      NoneListed(errs);
    }
  }

  method FirewallOk(c: SiteConfig) returns (ok: bool)
    ensures ok <==> (c.firewall.Some? ==> WellFormedFirewall(c.firewall.value, InterfaceNames(c.interfaces)))
  {
    ok := true;
    if c.firewall.Some? {
      var errs := ValidateFirewall(c.firewall.value, c.interfaces);
      ok := errs == [];
      NoneListed(errs);
      FirewallSoundAndComplete(c.firewall.value, InterfaceNames(c.interfaces));
    }
  }

  method PBROk(c: SiteConfig) returns (ok: bool)
    ensures ok <==> WellFormedPBR(c.pbr, InterfaceNames(c.interfaces))
  {
    var errs := ValidatePBR(c.pbr, c.interfaces);
    ok := errs == [];
    NoneListed(errs);
    PBRSoundAndComplete(c.pbr, InterfaceNames(c.interfaces));
    if ok {
      forall i, p | 0 <= i < |c.pbr|
        ensures !PBRIssue(c.pbr[i], InterfaceNames(c.interfaces), PrioritiesBefore(c.pbr, i), p)
      {
        assert At(i, p) !in errs;
      }
    }
  }

  /* ---------- Small accepted sites ---------- */

  // An interface that takes its address by DHCP and is no VLAN; it may have a gateway.
  predicate OnDHCP(f: Interface, role: string) {
    && f.role == role && f.address == "dhcp" && (f.gateway != "" ==> ValidIP(f.gateway)) && f.vlan == 0
    && f.name != "" && f.device != ""
  }

  // An uplink and two LANs.
  ghost predicate SmallSite(ifs: seq<Interface>) {
    && |ifs| == 3 && OnDHCP(ifs[0], "wan") && OnDHCP(ifs[1], "lan") && OnDHCP(ifs[2], "lan")
    && DistinctNames(ifs) && DistinctDevices(ifs)
  }

  function PlainSite(ifs: seq<Interface>, fw: Option<Firewall>): SiteConfig {
    SiteConfig("router", ifs, None, None, fw, false, [])
  }

  lemma SmallSiteAccepted(ifs: seq<Interface>, fw: Option<Firewall>)
    requires SmallSite(ifs)
    requires fw.Some? ==> WellFormedFirewall(fw.value, InterfaceNames(ifs))
    ensures Accepted(PlainSite(ifs, fw))
  {
    assert ifs[0] in ifs && ifs[1] in ifs;
    forall f | f in ifs
      ensures f.name != "" && f.device != "" && FieldsOk(f) && StaticNet(f).None?
    {
      OnDHCPOk(f);
    }
    assert WellFormedPBR([], InterfaceNames(ifs));
  }

  lemma OnDHCPOk(f: Interface)
    requires OnDHCP(f, "wan") || OnDHCP(f, "lan")
    ensures FieldsOk(f) && StaticNet(f).None?
  {
  }

  // There is one, with an uplink that has a gateway.
  lemma SmallSiteExists(gateway: IP) returns (ifs: seq<Interface>)
    ensures SmallSite(ifs) && ifs[0].IsUplink() && ifs[0].gateway == Format(gateway)
  {
    hide Format, ParseIP;
    ifs := [
      Interface("uplink", "wan", "eth0", "dhcp", Format(gateway), 0, None),
      Interface("office", "lan", "eth1", "dhcp", "", 0, None),
      Interface("guest", "lan", "eth2", "dhcp", "", 0, None)];
    assert |ifs[0].name| == 6 && |ifs[2].name| == 5 && ifs[1].name[0] == 'o' && ifs[2].name[0] == 'g';
    assert ifs[0].device[3] == '0' && ifs[1].device[3] == '1' && ifs[2].device[3] == '2';
    PrintedParses(gateway);
  }

  lemma PrintedParses(ip: IP)
    ensures Format(ip) != "" && ValidIP(Format(ip))
  {
    ParseFormat(ip);
  }

  // A LAN with a static address, written as address and prefix length.
  ghost predicate OnStatic(f: Interface, ip: IP, ones: nat) {
    && f.role == "lan" && ones <= 8 * |ip| && f.address == CIDRText(ip, ones) && f.gateway == "" && f.vlan == 0
    && f.name != "" && f.device != ""
  }

  lemma OnStaticOk(f: Interface, ip: IP, ones: nat)
    requires OnStatic(f, ip, ones)
    ensures FieldsOk(f) && ParsePrefix(f.address) == Some((ip, ones)) && StaticNet(f) == ParseCIDR(f.address)
    ensures StaticNet(f).Some?
  {
    hide ParsePrefix, CIDRText, MakeBlock;
    ParsePrinted(ip, ones);
    assert '/' !in "dhcp";
  }

  // An uplink on DHCP and two LANs with static addresses are accepted exactly when the addresses differ in the leading
  // bits that the shorter prefix counts, or are of different families.
  lemma StaticSiteAcceptedExactlyWhen(ifs: seq<Interface>, a: IP, m: nat, b: IP, n: nat)
    requires |ifs| == 3 && OnDHCP(ifs[0], "wan") && OnStatic(ifs[1], a, m) && OnStatic(ifs[2], b, n)
    requires DistinctNames(ifs) && DistinctDevices(ifs)
    ensures Accepted(PlainSite(ifs, None)) <==> !SameLeading(a, b, if m <= n then m else n)
  {
    hide OnStatic, WellFormedInterfaces, SubnetsDisjoint, ParsePrefix, SameLeading, SubnetsIntersect;
    StaticSiteIsWellFormed(ifs, a, m, b, n);
    StaticSiteDisjoint(ifs, a, m, b, n);
    assert WellFormedPBR([], InterfaceNames(ifs));
  }

  lemma StaticSiteIsWellFormed(ifs: seq<Interface>, a: IP, m: nat, b: IP, n: nat)
    requires |ifs| == 3 && OnDHCP(ifs[0], "wan") && OnStatic(ifs[1], a, m) && OnStatic(ifs[2], b, n)
    requires DistinctNames(ifs) && DistinctDevices(ifs)
    ensures WellFormedInterfaces(ifs)
  {
    hide OnDHCP, OnStatic, FieldsOk, StaticNet, ParsePrefix, MakeBlock, WellFormedInterfaces, DistinctNames,
         DistinctDevices;
    OnDHCPRole(ifs[0]);
    OnDHCPOk(ifs[0]);
    OnStaticOk(ifs[1], a, m);
    OnStaticOk(ifs[2], b, n);
    StaticRole(ifs[1], a, m);
    StaticRole(ifs[2], b, n);
    ThreeAreWellFormed(ifs);
  }

  lemma ThreeAreWellFormed(ifs: seq<Interface>)
    requires |ifs| == 3 && DistinctNames(ifs) && DistinctDevices(ifs) && ifs[0].role == "wan" && ifs[1].role == "lan"
    requires forall i :: 0 <= i < 3 ==> ifs[i].name != "" && ifs[i].device != "" && FieldsOk(ifs[i])
    ensures WellFormedInterfaces(ifs)
  {
    hide FieldsOk, DistinctNames, DistinctDevices;
    assert ifs[0] in ifs && ifs[1] in ifs;
  }

  lemma StaticSiteDisjoint(ifs: seq<Interface>, a: IP, m: nat, b: IP, n: nat)
    requires |ifs| == 3 && OnDHCP(ifs[0], "wan") && OnStatic(ifs[1], a, m) && OnStatic(ifs[2], b, n)
    ensures SubnetsDisjoint(ifs) <==> !SameLeading(a, b, if m <= n then m else n)
  {
    hide OnDHCP, OnStatic, FieldsOk, StaticNet, ParsePrefix, MakeBlock, TestsOverlap, SameLeading, Intersect;
    OnDHCPOk(ifs[0]);
    OnStaticOk(ifs[1], a, m);
    OnStaticOk(ifs[2], b, n);
    BlocksShareExactlyWhen(ifs[1].address, a, m, ifs[2].address, b, n);
    TestIsIntersect(ifs[1], ifs[2]);
    assert !SubnetsIntersect(ifs[0], ifs[1]) && !SubnetsIntersect(ifs[0], ifs[2]);
  }

  lemma OnDHCPRole(f: Interface)
    requires OnDHCP(f, "wan")
    ensures f.role == "wan" && f.name != "" && f.device != ""
  {
  }

  lemma StaticRole(f: Interface, ip: IP, ones: nat)
    requires OnStatic(f, ip, ones)
    ensures f.role == "lan" && f.name != "" && f.device != ""
  {
  }
}
