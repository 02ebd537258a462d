/**
 The failover controller (internal/failover/controller.go): it turns health transitions of WAN uplinks into
 changes of the ECMP default route and of the policy rules, and undoes its own bookkeeping when FRR refuses.
 */
module Failover {
  import opened Text
  import opened IPNet
  import opened Config
  import opened Health
  import opened Routes

  datatype Uplink = Uplink(name: string, gateway: IP, device: string) {
    function Hop(): Nexthop {
      Nexthop(gateway, device, 1)
    }
  }

  // Validation has checked that every gateway text is an address.
  ghost predicate GatewaysParse(ifs: seq<Interface>) {
    forall f :: f in ifs && f.gateway != "" ==> ParseIP(f.gateway).Some?
  }

  function UplinkOf(f: Interface): Uplink
    requires ParseIP(f.gateway).Some?
  {
    Uplink(f.name, ParseIP(f.gateway).value, f.device)
  }

  // The uplink index NewController builds.
  function UplinkIndex(ifs: seq<Interface>): map<string, Uplink>
    requires GatewaysParse(ifs)
  {
    if ifs == [] then map[]
    else
      var before, last := UplinkIndex(ifs[..|ifs| - 1]), ifs[|ifs| - 1];
      if last.IsUplink() then before[last.name := UplinkOf(last)] else before
  }

  lemma {:induction false} UplinkIndexOf(ifs: seq<Interface>)
    requires GatewaysParse(ifs) && DistinctNames(ifs)
    ensures forall n :: n in UplinkIndex(ifs) ==>
              exists f :: f in ifs && f.role == "wan" && f.gateway != "" && f.name == n
    ensures forall f :: f in ifs && f.role == "wan" && f.gateway != "" ==>
              && ParseIP(f.gateway).Some? && f.name in UplinkIndex(ifs)
              && UplinkIndex(ifs)[f.name] == Uplink(f.name, ParseIP(f.gateway).value, f.device)
  {
    if ifs != [] {
      var front, last := ifs[..|ifs| - 1], ifs[|ifs| - 1];
      UplinkIndexOf(front);
      LastNameIsNew(ifs);
      assert ifs == front + [last];
    }
  }

  // Of several uplinks of a name the last one counts.
  ghost predicate LastUplinkAt(ifs: seq<Interface>, n: string, i: int, up: Uplink) {
    && 0 <= i < |ifs| && ifs[i].IsUplink() && ifs[i].name == n && ParseIP(ifs[i].gateway).Some?
    && up == Uplink(n, ParseIP(ifs[i].gateway).value, ifs[i].device)
    && forall j :: i < j < |ifs| && ifs[j].IsUplink() ==> ifs[j].name != n
  }

  lemma {:induction false} UplinkIndexIsLast(ifs: seq<Interface>, n: string) returns (i: int)
    requires GatewaysParse(ifs) && n in UplinkIndex(ifs)
    ensures LastUplinkAt(ifs, n, i, UplinkIndex(ifs)[n])
  {
    hide ParseIP;
    var front, last := ifs[..|ifs| - 1], ifs[|ifs| - 1];
    if last.IsUplink() && last.name == n {
      i := |ifs| - 1;
    } else {
      i := UplinkIndexIsLast(front, n);
      assert forall j :: 0 <= j < |front| ==> ifs[j] == front[j];
    }
  }

  // The policy rule NewController derives from a configured one; rules whose target or source is unusable
  // are skipped.
  function PolicyRuleOf(ifs: seq<Interface>, r: PBRRule): Option<PolicyRule>
    requires GatewaysParse(ifs)
  {
    var target, src := LastNamed(ifs, r.iface), ParseCIDR(r.source);
    if target.Some? && target.value.gateway != "" && src.Some? then
      Some(PolicyRule(r.name, r.priority, src.value, ParseIP(target.value.gateway).value, target.value.device))
    else None
  }

  function PolicyRulesOf(ifs: seq<Interface>, pbr: seq<PBRRule>): (rs: seq<Option<PolicyRule>>)
    requires GatewaysParse(ifs)
    ensures |rs| == |pbr| && forall i :: 0 <= i < |rs| ==> rs[i] == PolicyRuleOf(ifs, pbr[i])
  {
    seq(|pbr|, i requires 0 <= i < |pbr| => PolicyRuleOf(ifs, pbr[i]))
  }

  function LastByName(rs: seq<Option<PolicyRule>>): map<string, PolicyRule> {
    if rs == [] then map[]
    else
      var before, last := LastByName(rs[..|rs| - 1]), rs[|rs| - 1];
      if last.Some? then before[last.value.name := last.value] else before
  }

  // The rules NewController tracks.
  function PolicyIndex(ifs: seq<Interface>, pbr: seq<PBRRule>): map<string, PolicyRule>
    requires GatewaysParse(ifs)
  {
    LastByName(PolicyRulesOf(ifs, pbr))
  }

  // Entry i is the rule r, named n, and no later usable one has that name.
  ghost predicate LastAt(rs: seq<Option<PolicyRule>>, i: int, n: string, r: PolicyRule) {
    && 0 <= i < |rs| && rs[i] == Some(r) && r.name == n
    && forall j :: i < j < |rs| && rs[j].Some? ==> rs[j].value.name != n
  }

  ghost predicate LastNamedRule(rs: seq<Option<PolicyRule>>, n: string, r: PolicyRule) {
    exists i :: LastAt(rs, i, n, r)
  }

  // A rule is tracked exactly when it is the last usable one of its name, under that name.
  lemma {:induction false} PolicyIndexMeaning(rs: seq<Option<PolicyRule>>, n: string, r: PolicyRule)
    ensures n in LastByName(rs) && LastByName(rs)[n] == r <==> LastNamedRule(rs, n, r)
    ensures r.name == n && Some(r) in rs ==> n in LastByName(rs)
  {
    if rs != [] {
      var front, last := rs[..|rs| - 1], rs[|rs| - 1];
      PolicyIndexMeaning(front, n, r);
      LastNamedSnoc(rs, n, r);
      assert rs == front + [last];
    }
  }

  lemma LastNamedSnoc(rs: seq<Option<PolicyRule>>, n: string, r: PolicyRule)
    requires rs != []
    ensures LastNamedRule(rs, n, r) <==>
              if rs[|rs| - 1].Some? && rs[|rs| - 1].value.name == n then rs[|rs| - 1].value == r
              else LastNamedRule(rs[..|rs| - 1], n, r)
  {
    var front, last := rs[..|rs| - 1], rs[|rs| - 1];
    if last == Some(r) && r.name == n {
      assert LastAt(rs, |rs| - 1, n, r);
    }
    if i :| LastAt(front, i, n, r) {
      assert !(last.Some? && last.value.name == n) ==> LastAt(rs, i, n, r);
    }
    if i :| LastAt(rs, i, n, r) {
      assert i == |rs| - 1 || LastAt(front, i, n, r);
    }
  }

  // In terms of the configuration: the interface a rule names has a gateway, and its source is a block.
  ghost predicate Usable(ifs: seq<Interface>, r: PBRRule) {
    (exists f :: f in ifs && f.name == r.iface && f.gateway != "") && ParseCIDR(r.source).Some?
  }

  // Rule k is usable, and no later usable one has its name.
  ghost predicate LastUsable(ifs: seq<Interface>, pbr: seq<PBRRule>, k: int) {
    && 0 <= k < |pbr| && Usable(ifs, pbr[k])
    && forall j :: k < j < |pbr| && pbr[j].name == pbr[k].name ==> !Usable(ifs, pbr[j])
  }

  lemma UsableIsSome(ifs: seq<Interface>, r: PBRRule)
    requires GatewaysParse(ifs) && DistinctNames(ifs)
    ensures PolicyRuleOf(ifs, r).Some? <==> Usable(ifs, r)
    ensures PolicyRuleOf(ifs, r).Some? ==> PolicyRuleOf(ifs, r).value.name == r.name
  {
    hide ParseIP, ParseCIDR;
    forall f | f in ifs && f.name == r.iface
      ensures LastNamed(ifs, r.iface) == Some(f)
    {
      NamedIs(ifs, f);
    }
  }

  lemma NamedIs(ifs: seq<Interface>, f: Interface)
    requires DistinctNames(ifs) && f in ifs
    ensures LastNamed(ifs, f.name) == Some(f)
  {
    var i :| 0 <= i < |ifs| && ifs[i] == f;
    LastNamedIsOnly(ifs, i);
  }

  // The rule tracked under a name sends the configured source, with the configured priority, through the gateway and
  // the device of the interface that the last usable rule of that name gives.
  ghost predicate RuleFor(rules: map<string, PolicyRule>, r: PBRRule, f: Interface) {
    && r.name in rules && ParseIP(f.gateway).Some? && ParseCIDR(r.source).Some?
    && rules[r.name]
    == PolicyRule(r.name, r.priority, ParseCIDR(r.source).value, ParseIP(f.gateway).value, f.device)
  }

  lemma TrackedRuleIs(ifs: seq<Interface>, pbr: seq<PBRRule>, k: int, f: Interface)
    requires GatewaysParse(ifs) && DistinctNames(ifs) && LastUsable(ifs, pbr, k)
    requires f in ifs && f.name == pbr[k].iface
    ensures RuleFor(PolicyIndex(ifs, pbr), pbr[k], f)
  {
    hide ParseIP, ParseCIDR, Usable, LastByName;
    var rs := PolicyRulesOf(ifs, pbr);
    NamedIs(ifs, f);
    forall j | 0 <= j < |pbr|
      ensures rs[j].Some? <==> Usable(ifs, pbr[j])
      ensures rs[j].Some? ==> rs[j].value.name == pbr[j].name
    {
      UsableIsSome(ifs, pbr[j]);
    }
    var r := rs[k].value;
    assert LastAt(rs, k, r.name, r);
    PolicyIndexMeaning(rs, r.name, r);
  }

  // Every last usable rule is in the table as configured, and nothing else.
  ghost predicate AsConfigured(ifs: seq<Interface>, pbr: seq<PBRRule>, rules: map<string, PolicyRule>) {
    && (forall k, f :: LastUsable(ifs, pbr, k) && f in ifs && f.name == pbr[k].iface ==> RuleFor(rules, pbr[k], f))
    && (forall n :: n in rules ==> exists k :: LastUsable(ifs, pbr, k) && pbr[k].name == n)
  }

  lemma TrackedAsConfigured(ifs: seq<Interface>, pbr: seq<PBRRule>)
    requires GatewaysParse(ifs) && DistinctNames(ifs)
    ensures AsConfigured(ifs, pbr, PolicyIndex(ifs, pbr))
  {
    hide RuleFor, PolicyIndex, Usable;
    forall k, f | LastUsable(ifs, pbr, k) && f in ifs && f.name == pbr[k].iface
      ensures RuleFor(PolicyIndex(ifs, pbr), pbr[k], f)
    {
      TrackedRuleIs(ifs, pbr, k, f);
    }
    forall n | n in PolicyIndex(ifs, pbr)
      ensures exists k :: LastUsable(ifs, pbr, k) && pbr[k].name == n
    {
      var k := OnlyLastUsable(ifs, pbr, n);
    }
  }

  lemma OnlyLastUsable(ifs: seq<Interface>, pbr: seq<PBRRule>, n: string) returns (k: int)
    requires GatewaysParse(ifs) && DistinctNames(ifs) && n in PolicyIndex(ifs, pbr)
    ensures LastUsable(ifs, pbr, k) && pbr[k].name == n
  {
    hide ParseIP, ParseCIDR, Usable, LastByName, PolicyRuleOf;
    var rs := PolicyRulesOf(ifs, pbr);
    var r := PolicyIndex(ifs, pbr)[n];
    PolicyIndexMeaning(rs, n, r);
    k :| LastAt(rs, k, n, r);
    forall j | 0 <= j < |pbr|
      ensures rs[j].Some? <==> Usable(ifs, pbr[j])
      ensures rs[j].Some? ==> rs[j].value.name == pbr[j].name
    {
      UsableIsSome(ifs, pbr[j]);
    }
  }

  // Every usable rule is tracked exactly when no two usable rules of one name differ. Validation does not see to
  // that: it compares priorities only.
  lemma EveryRuleTrackedExactlyWhen(rs: seq<Option<PolicyRule>>)
    ensures (forall r :: Some(r) in rs ==> r in LastByName(rs).Values)
       <==> (forall q, r :: Some(q) in rs && Some(r) in rs && q.name == r.name ==> q == r)
  {
    forall r | Some(r) in rs
      ensures r.name in LastByName(rs)
    {
      PolicyIndexMeaning(rs, r.name, r);
    }
    forall n | n in LastByName(rs)
      ensures LastByName(rs)[n].name == n && Some(LastByName(rs)[n]) in rs
    {
      PolicyIndexMeaning(rs, n, LastByName(rs)[n]);
    }
  }

  /* ---------- Specification ---------- */

  // What the controller never changes.
  datatype Site = Site(uplinks: map<string, Uplink>, rules: set<PolicyRule>)

  // What it changes: its active set, the routes the manager believes installed, FRR's table, and the rules
  // present in a manager that carries out every policy call.
  datatype Control = Control(
    active: map<string, bool>, installed: set<string>, frr: set<string>, policy: set<PolicyRule>)

  // Go reads a missing map entry as false.
  predicate IsActive(active: map<string, bool>, name: string) {
    name in active && active[name]
  }

  function KeyOf(site: Site, name: string): string
    requires name in site.uplinks
  {
    NhKey(site.uplinks[name].Hop())
  }

  function Wanted(site: Site, active: map<string, bool>): set<string> {
    set n | n in site.uplinks && IsActive(active, n) :: KeyOf(site, n)
  }

  function Targeting(rules: set<PolicyRule>, device: string): set<PolicyRule> {
    set r | r in rules && r.device == device
  }

  // Activating (`up`) or deactivating one uplink; on failure its flag is put back.
  ghost predicate Switched(
    site: Site, c: Control, name: string, up: bool, attempts: seq<Attempt>, c': Control, ok: bool)
  {
    if IsActive(c.active, name) == up then
      c' == c && attempts == [] && ok
    else
      var active := c.active[name := up];
      && Replaces(c.installed, Wanted(site, active), attempts, ok)
      && c'.installed == Effects(c.installed, attempts)
      && c'.frr == Effects(c.frr, attempts)
      && c'.active == (if ok then active else c.active[name := !up])
      && c'.policy == if !ok || name !in site.uplinks then c.policy
                      else if up then c.policy + Targeting(site.rules, site.uplinks[name].device)
                      else c.policy - Targeting(site.rules, site.uplinks[name].device)
  }

  // HandleStateChange acts on Down and Healthy only.
  ghost predicate Handled(
    site: Site, c: Control, name: string, status: Status, attempts: seq<Attempt>, c': Control, ok: bool)
  {
    if status == Down then Switched(site, c, name, false, attempts, c', ok)
    else if status == Healthy then Switched(site, c, name, true, attempts, c', ok)
    else c' == c && attempts == [] && ok
  }

  ghost predicate InitialInstall(site: Site, c: Control, attempts: seq<Attempt>, c': Control, ok: bool) {
    && Replaces(c.installed, Wanted(site, c.active), attempts, ok)
    && c'.installed == Effects(c.installed, attempts)
    && c'.frr == Effects(c.frr, attempts)
    && c'.active == c.active
    && c'.policy == if ok then c.policy + site.rules else c.policy
  }

  /* ---------- One event, for every outcome of its commands ---------- */

  // The manager's memory is the wanted set.
  predicate Tracks(site: Site, c: Control) {
    c.installed == Wanted(site, c.active)
  }

  // FRR and the manager's memory say the same about a route.
  predicate Agree(c: Control, key: string) {
    key in c.frr <==> key in c.installed
  }

  // FRR, the manager's memory and the active set tell the same story.
  predicate Synced(site: Site, c: Control) {
    c.installed == c.frr == Wanted(site, c.active)
  }

  predicate AcceptedCommand(attempts: seq<Attempt>, key: string) {
    Attempt(Add(key), true) in attempts || Attempt(Remove(key), true) in attempts
  }

  lemma WantedAfterSwitch(site: Site, active: map<string, bool>, name: string, up: bool)
    requires IsActive(active, name) != up
    ensures var w, w' := Wanted(site, active), Wanted(site, active[name := up]);
            if name in site.uplinks then
              (w - w') + (w' - w) <= {KeyOf(site, name)} && (up ==> KeyOf(site, name) in w')
            else w == w'
    ensures Wanted(site, active[name := !up]) == Wanted(site, active)
  {
  }

  // Whether or not FRR accepts the command, the memory stays the wanted set, and there is at most one command, for
  // the uplink's own route. A failed event changes no route and leaves the uplink as it was.
  lemma HandledKeepsTrack(
    site: Site, c: Control, name: string, status: Status, attempts: seq<Attempt>, c': Control, ok: bool)
    requires Tracks(site, c) && Handled(site, c, name, status, attempts, c', ok)
    ensures Tracks(site, c') && |attempts| <= 1
    ensures attempts != [] ==>
              && name in site.uplinks && attempts[0].cmd.key == KeyOf(site, name) && attempts[0].ok == ok
              && (ok ==> (KeyOf(site, name) in c.installed <==> KeyOf(site, name) !in c'.installed))
    ensures !ok ==> attempts != [] && c'.installed == c.installed && c'.frr == c.frr && c'.policy == c.policy
    ensures forall n :: n != name ==> (IsActive(c'.active, n) <==> IsActive(c.active, n))
    ensures IsActive(c'.active, name) <==>
              if ok && status == Down then false
              else if ok && status == Healthy then true
              else IsActive(c.active, name)
  {
    if (status == Down || status == Healthy) && IsActive(c.active, name) != (status == Healthy) {
      SwitchedKeepsTrack(site, c, name, status == Healthy, attempts, c', ok);
    }
  }

  lemma SwitchedKeepsTrack(
    site: Site, c: Control, name: string, up: bool, attempts: seq<Attempt>, c': Control, ok: bool)
    requires Tracks(site, c) && IsActive(c.active, name) != up && Switched(site, c, name, up, attempts, c', ok)
    ensures Tracks(site, c') && |attempts| <= 1
    ensures attempts != [] ==>
              && name in site.uplinks && attempts[0].cmd.key == KeyOf(site, name) && attempts[0].ok == ok
              && (ok ==> (KeyOf(site, name) in c.installed <==> KeyOf(site, name) !in c'.installed))
    ensures !ok ==> attempts != [] && c'.installed == c.installed && c'.frr == c.frr
  {
    var wanted := Wanted(site, c.active[name := up]);
    var key := if name in site.uplinks then KeyOf(site, name) else "";
    WantedAfterSwitch(site, c.active, name, up);
    ReplaceSmallDifference(c.installed, wanted, attempts, ok, key);
    if !ok {
      OneEffect(c.frr, attempts);
    }
  }

  // After one event FRR and the memory agree on a route exactly when they did before, or FRR has just accepted a
  // command on it.
  lemma HandledKeepsAgreement(
    site: Site, c: Control, name: string, status: Status, attempts: seq<Attempt>, c': Control, ok: bool, key: string)
    requires Tracks(site, c) && Handled(site, c, name, status, attempts, c', ok)
    ensures Agree(c', key) <==> Agree(c, key) || AcceptedCommand(attempts, key)
    ensures !AcceptedCommand(attempts, key) ==> (key in c'.frr <==> key in c.frr)
  {
    HandledKeepsTrack(site, c, name, status, attempts, c', ok);
    if attempts != [] {
      OneEffect(c.installed, attempts);
      OneEffect(c.frr, attempts);
      assert attempts[0] in attempts;
    }
  }

  lemma AcceptedIsFirst(attempts: seq<Attempt>, key: string)
    requires |attempts| <= 1
    ensures AcceptedCommand(attempts, key) <==> attempts != [] && attempts[0].ok && attempts[0].cmd.key == key
  {
    if attempts != [] {
      assert attempts[0] in attempts;
      assert attempts[0] == Attempt(Add(attempts[0].cmd.key), attempts[0].ok)
          || attempts[0] == Attempt(Remove(attempts[0].cmd.key), attempts[0].ok);
    }
  }

  lemma OneEffect(table: set<string>, attempts: seq<Attempt>)
    requires |attempts| == 1
    ensures Effects(table, attempts) == Effect(table, attempts[0])
  {
    assert attempts[..0] == [];
  }

  /* ---------- Policy rules ---------- */

  ghost predicate DistinctUplinkDevices(site: Site) {
    forall m, n :: m in site.uplinks && n in site.uplinks && m != n
                   ==> site.uplinks[m].device != site.uplinks[n].device
  }

  lemma KeyInstalled(site: Site, active: map<string, bool>, u: string)
    requires u in site.uplinks && DistinctUplinkDevices(site)
    ensures KeyOf(site, u) in Wanted(site, active) <==> IsActive(active, u)
  {
    if KeyOf(site, u) in Wanted(site, active) {
      var v :| v in site.uplinks && IsActive(active, v) && KeyOf(site, v) == KeyOf(site, u);
      NhKeyInjective(site.uplinks[v].Hop(), site.uplinks[u].Hop());
    }
  }

  // With distinct devices a command on a route is accepted exactly when its own uplink is switched.
  lemma CommandIsSwitch(
    site: Site, c: Control, name: string, status: Status, attempts: seq<Attempt>, c': Control, ok: bool, u: string)
    requires Tracks(site, c) && Handled(site, c, name, status, attempts, c', ok)
    requires DistinctUplinkDevices(site) && name in site.uplinks && u in site.uplinks
    ensures AcceptedCommand(attempts, KeyOf(site, u)) <==>
              && u == name && ok
              && ((status == Down && IsActive(c.active, name)) || (status == Healthy && !IsActive(c.active, name)))
  {
    HandledKeepsTrack(site, c, name, status, attempts, c', ok);
    AcceptedIsFirst(attempts, KeyOf(site, u));
    if u != name {
      if KeyOf(site, name) == KeyOf(site, u) {
        NhKeyInjective(site.uplinks[name].Hop(), site.uplinks[u].Hop());
      }
    } else {
      KeyInstalled(site, c.active, u);
      KeyInstalled(site, c'.active, u);
    }
  }

  // The rules present are those whose target is not the device of an inactive uplink.
  ghost predicate PolicyFollows(site: Site, c: Control) {
    forall r :: r in c.policy <==>
      r in site.rules
      && forall n :: n in site.uplinks && !IsActive(c.active, n) ==> site.uplinks[n].device != r.device
  }

  lemma InitialInstallStartsPolicy(site: Site, c: Control, attempts: seq<Attempt>, c': Control)
    requires InitialInstall(site, c, attempts, c', true)
    requires c.policy == {} && forall n :: n in site.uplinks ==> IsActive(c.active, n)
    ensures PolicyFollows(site, c')
  {
  }

  // A failed one adds no rule.
  lemma FailedInstallAddsNoRule(site: Site, c: Control, attempts: seq<Attempt>, c': Control)
    requires InitialInstall(site, c, attempts, c', false)
    ensures c'.policy == c.policy && c'.active == c.active && attempts != [] && !attempts[|attempts| - 1].ok
    ensures c.installed * Wanted(site, c.active) <= c'.installed <= c.installed + Wanted(site, c.active)
  {
    ReplaceBetween(c.installed, Wanted(site, c.active), attempts, false);
  }

  // Another inactive uplink uses the device of the uplink, and some rule targets that device.
  ghost predicate SharesWithInactive(site: Site, active: map<string, bool>, name: string)
    requires name in site.uplinks
  {
    var device := site.uplinks[name].device;
    && Targeting(site.rules, device) != {}
    && exists n :: n in site.uplinks && n != name && !IsActive(active, n) && site.uplinks[n].device == device
  }

  // The event brings an uplink back whose device an inactive one still uses.
  ghost predicate RevivesShared(site: Site, c: Control, name: string, status: Status, ok: bool) {
    && ok && status == Healthy && name in site.uplinks && !IsActive(c.active, name)
    && SharesWithInactive(site, c.active, name)
  }

  // An event keeps the policy rules right exactly when it does not bring back an uplink whose device is shared with
  // an inactive one.
  lemma PolicyKeptExactlyWhen(
    site: Site, c: Control, name: string, status: Status, attempts: seq<Attempt>, c': Control, ok: bool)
    requires PolicyFollows(site, c) && Handled(site, c, name, status, attempts, c', ok)
    ensures PolicyFollows(site, c') <==> !RevivesShared(site, c, name, status, ok)
  {
  }

  // Distinct devices, which validation guarantees, rule that out.
  lemma HandledKeepsPolicy(
    site: Site, c: Control, name: string, status: Status, attempts: seq<Attempt>, c': Control, ok: bool)
    requires DistinctUplinkDevices(site)
    requires PolicyFollows(site, c) && Handled(site, c, name, status, attempts, c', ok)
    ensures PolicyFollows(site, c')
  {
    PolicyKeptExactlyWhen(site, c, name, status, attempts, c', ok);
  }

  /* ---------- The object ---------- */

  // The loops of NewController.
  method BuildUplinkIndex(ifs: seq<Interface>) returns (uplinks: map<string, Uplink>, active: map<string, bool>)
    requires GatewaysParse(ifs)
    ensures uplinks == UplinkIndex(ifs)
    ensures active == map n | n in uplinks :: true
  {
    uplinks, active := map[], map[];
    for i := 0 to |ifs|
      invariant uplinks == UplinkIndex(ifs[..i])
      invariant active == map n | n in uplinks :: true
    {
      assert ifs[..i + 1][..i] == ifs[..i];
      if ifs[i].role == "wan" && ifs[i].gateway != "" {
        uplinks := uplinks[ifs[i].name := UplinkOf(ifs[i])];
        active := active[ifs[i].name := true];
      }
    }
    assert ifs[..|ifs|] == ifs;
  }

  method BuildPolicyIndex(ifs: seq<Interface>, pbr: seq<PBRRule>) returns (rules: map<string, PolicyRule>)
    requires GatewaysParse(ifs)
    ensures rules == PolicyIndex(ifs, pbr)
    ensures forall n, r :: n in rules && rules[n] == r <==> LastNamedRule(PolicyRulesOf(ifs, pbr), n, r)
    ensures DistinctNames(ifs) ==> AsConfigured(ifs, pbr, rules)
  {
    hide LastNamedRule, ParseCIDR, ParseIP, AsConfigured;
    var byName := IndexByName(ifs);
    rules := map[];
    for i := 0 to |pbr|
      invariant rules == PolicyIndex(ifs, pbr[..i])
    {
      assert PolicyRulesOf(ifs, pbr[..i + 1])[..i] == PolicyRulesOf(ifs, pbr[..i]);
      var rule := pbr[i];
      if rule.iface in byName && byName[rule.iface].gateway != "" {
        var target, src := byName[rule.iface], ParseCIDR(rule.source);
        if src.Some? {
          rules := rules[rule.name := PolicyRule(rule.name, rule.priority, src.value,
                                                 ParseIP(target.gateway).value, target.device)];
        }
      }
    }
    assert pbr[..|pbr|] == pbr;
    forall n, r
      ensures n in rules && rules[n] == r <==> LastNamedRule(PolicyRulesOf(ifs, pbr), n, r)
    {
      PolicyIndexMeaning(PolicyRulesOf(ifs, pbr), n, r);
    }
    if DistinctNames(ifs) {
      TrackedAsConfigured(ifs, pbr);
    }
  }

  class Controller {
    const uplinks: map<string, Uplink>
    const pbrRules: map<string, PolicyRule>
    var active: map<string, bool>
    const routes: VtyshRouteManager

    ghost function Fixed(): Site {
      Site(uplinks, pbrRules.Values)
    }

    ghost function View(): Control
      reads this, routes, routes.frr
    {
      Control(active, routes.installed, routes.frr.table, PolicyTable(routes.policyCalls))
    }

    constructor (cfg: SiteConfig, routes: VtyshRouteManager)
      requires GatewaysParse(cfg.interfaces)
      ensures uplinks == UplinkIndex(cfg.interfaces)
      ensures pbrRules == PolicyIndex(cfg.interfaces, cfg.pbr)
      ensures DistinctNames(cfg.interfaces) ==> AsConfigured(cfg.interfaces, cfg.pbr, pbrRules)
      ensures active == map n | n in uplinks :: true
      ensures this.routes == routes
    {
      var ups, act := BuildUplinkIndex(cfg.interfaces);
      var rules := BuildPolicyIndex(cfg.interfaces, cfg.pbr);
      uplinks, pbrRules, this.routes := ups, rules, routes;
      active := act;
    }

    method HandleStateChange(name: string, oldStatus: Status, newStatus: Status)
      returns (ghost attempts: seq<Attempt>, ghost ok: bool)
      modifies this, routes, routes.frr
      ensures Handled(Fixed(), old(View()), name, newStatus, attempts, View(), ok)
    {
      attempts, ok := [], true;
      match newStatus
      case Down => attempts, ok := DeactivateUplink(name);
      case Healthy => attempts, ok := ActivateUplink(name);
      case _ =>
    }

    method InstallInitialRoutes() returns (ok: bool, ghost attempts: seq<Attempt>)
      modifies routes, routes.frr
      ensures InitialInstall(Fixed(), old(View()), attempts, View(), ok)
    {
      ok, attempts := UpdateECMP();
      if ok {
        ghost var before := PolicyTable(routes.policyCalls);
        var todo := pbrRules.Keys;
        while todo != {}
          invariant todo <= pbrRules.Keys
          invariant PolicyTable(routes.policyCalls) == before + set n | n in pbrRules && n !in todo :: pbrRules[n]
          invariant routes.installed == Effects(old(routes.installed), attempts)
          invariant routes.frr.table == Effects(old(routes.frr.table), attempts)
        {
          var n :| n in todo;
          todo := todo - {n};
          ghost var calls := routes.policyCalls;
          routes.AddPBRRule(pbrRules[n]);
          assert routes.policyCalls[..|calls|] == calls;
        }
      }
    }

    method DeactivateUplink(name: string) returns (ghost attempts: seq<Attempt>, ghost ok: bool)
      modifies this, routes, routes.frr
      ensures Switched(Fixed(), old(View()), name, false, attempts, View(), ok)
    {
      if name !in active || !active[name] {
        return [], true;
      }
      active := active[name := false];
      var done;
      done, attempts := UpdateECMP();
      ok := done;
      if !done {
        active := active[name := true];
        return;
      }
      if name !in uplinks {
        return;
      }
      DelRules(uplinks[name].device);
    }

    method ActivateUplink(name: string) returns (ghost attempts: seq<Attempt>, ghost ok: bool)
      modifies this, routes, routes.frr
      ensures Switched(Fixed(), old(View()), name, true, attempts, View(), ok)
    {
      if name in active && active[name] {
        return [], true;
      }
      active := active[name := true];
      var done;
      done, attempts := UpdateECMP();
      ok := done;
      if !done {
        active := active[name := false];
        return;
      }
      if name !in uplinks {
        return;
      }
      AddRules(uplinks[name].device);
    }

    // The loop that ends deactivateUplink.
    method DelRules(device: string)
      modifies routes`policyCalls
      ensures PolicyTable(routes.policyCalls)
           == PolicyTable(old(routes.policyCalls)) - Targeting(pbrRules.Values, device)
    {
      var todo := pbrRules.Keys;
      while todo != {}
        invariant todo <= pbrRules.Keys
        invariant PolicyTable(routes.policyCalls) == PolicyTable(old(routes.policyCalls))
                  - set n | n in pbrRules && n !in todo && pbrRules[n].device == device :: pbrRules[n]
      {
        var n :| n in todo;
        todo := todo - {n};
        if pbrRules[n].device == device {
          ghost var calls := routes.policyCalls;
          routes.DelPBRRule(pbrRules[n]);
          assert routes.policyCalls[..|calls|] == calls;
        }
      }
    }

    // The loop that ends activateUplink.
    method AddRules(device: string)
      modifies routes`policyCalls
      ensures PolicyTable(routes.policyCalls)
           == PolicyTable(old(routes.policyCalls)) + Targeting(pbrRules.Values, device)
    {
      var todo := pbrRules.Keys;
      while todo != {}
        invariant todo <= pbrRules.Keys
        invariant PolicyTable(routes.policyCalls) == PolicyTable(old(routes.policyCalls))
                  + set n | n in pbrRules && n !in todo && pbrRules[n].device == device :: pbrRules[n]
      {
        var n :| n in todo;
        todo := todo - {n};
        if pbrRules[n].device == device {
          ghost var calls := routes.policyCalls;
          routes.AddPBRRule(pbrRules[n]);
          assert routes.policyCalls[..|calls|] == calls;
        }
      }
    }

    method UpdateECMP() returns (ok: bool, ghost attempts: seq<Attempt>)
      modifies routes`installed, routes.frr
      ensures Replaces(old(routes.installed), Wanted(Fixed(), active), attempts, ok)
      ensures routes.installed == Effects(old(routes.installed), attempts)
      ensures routes.frr.table == Effects(old(routes.frr.table), attempts)
    {
      var nexthops := ActiveNexthops();
      ok, attempts := routes.ReplaceECMPRoute(nexthops);
    }

    // The loop of updateECMP.
    method ActiveNexthops() returns (nexthops: seq<Nexthop>)
      ensures Keys(nexthops) == Wanted(Fixed(), active)
    {
      nexthops := [];
      var todo := uplinks.Keys;
      while todo != {}
        invariant todo <= uplinks.Keys
        invariant Keys(nexthops)
               == set n | n in uplinks && n !in todo && IsActive(active, n) :: KeyOf(Fixed(), n)
      {
        var n :| n in todo;
        todo := todo - {n};
        if n in active && active[n] {
          KeysSnoc(nexthops, uplinks[n].Hop());
          nexthops := nexthops + [uplinks[n].Hop()];
        }
      }
    }

    method ActiveUplinks() returns (names: set<string>)
      ensures names == set n | n in active && active[n]
    {
      names := {};
      var todo := active.Keys;
      while todo != {}
        invariant todo <= active.Keys
        invariant names == set n | n in active && n !in todo && active[n]
      {
        var n :| n in todo;
        todo := todo - {n};
        if active[n] {
          names := names + {n};
        }
      }
    }
  }

  lemma KeysSnoc(nexthops: seq<Nexthop>, nh: Nexthop)
    ensures Keys(nexthops + [nh]) == Keys(nexthops) + {NhKey(nh)}
  {
  }
}
