/**
 The vtysh route manager (internal/failover/vtysh.go): it drives FRR's static default routes one command at a
 time, any of which may fail, and remembers in `installed` what it believes FRR holds.
 */
module Routes {
  import opened Text
  import opened IPNet

  datatype Nexthop = Nexthop(gateway: IP, device: string, weight: int)

  // nhKey: the text after "ip route 0.0.0.0/0 ".
  function NhKey(nh: Nexthop): string {
    Format(nh.gateway) + [' '] + nh.device
  }

  // The key determines the gateway and the device.
  lemma NhKeyInjective(a: Nexthop, b: Nexthop)
    requires NhKey(a) == NhKey(b)
    ensures a.gateway == b.gateway && a.device == b.device
  {
    ParseFormat(a.gateway);
    ParseFormat(b.gateway);
    SplitUnique(Format(a.gateway), a.device, Format(b.gateway), b.device, ' ');
  }

  function Keys(nexthops: seq<Nexthop>): set<string> {
    set nh | nh in nexthops :: NhKey(nh)
  }

  /* ---------- Commands ---------- */

  datatype Command = Remove(key: string) | Add(key: string) {
    function ConfigLine(): string {
      (if Remove? then "no ip route 0.0.0.0/0 " else "ip route 0.0.0.0/0 ") + key
    }
  }

  // vtysh takes a route away with the line that adds it, after "no".
  lemma RemoveIsNo(key: string)
    ensures Add(key).ConfigLine() == "ip route 0.0.0.0/0 " + key
    ensures Remove(key).ConfigLine() == "no " + Add(key).ConfigLine()
  {
    assert "no " + "ip route 0.0.0.0/0 " == "no ip route 0.0.0.0/0 ";
  }

  // Different commands are different lines to vtysh.
  lemma ConfigLineInjective(a: Command, b: Command)
    requires a.ConfigLine() == b.ConfigLine()
    ensures a == b
  {
    var no, yes := "no ip route 0.0.0.0/0 ", "ip route 0.0.0.0/0 ";
    assert a.ConfigLine()[0] == if a.Remove? then 'n' else 'i';
    assert b.ConfigLine()[0] == if b.Remove? then 'n' else 'i';
    var n := if a.Remove? then |no| else |yes|;
    assert a.ConfigLine()[n..] == a.key && b.ConfigLine()[n..] == b.key;
  }

  // A command that was issued, and whether vtysh accepted it. A rejected command has no effect.
  datatype Attempt = Attempt(cmd: Command, ok: bool)

  function Effect(table: set<string>, a: Attempt): set<string> {
    if !a.ok then table
    else match a.cmd
      case Remove(key) => table - {key}
      case Add(key) => table + {key}
  }

  function Effects(table: set<string>, attempts: seq<Attempt>): set<string> {
    if attempts == [] then table
    else Effect(Effects(table, attempts[..|attempts| - 1]), attempts[|attempts| - 1])
  }

  lemma EffectsSnoc(table: set<string>, attempts: seq<Attempt>, a: Attempt)
    ensures Effects(table, attempts + [a]) == Effect(Effects(table, attempts), a)
  {
    assert (attempts + [a])[..|attempts|] == attempts;
  }

  lemma {:induction false} EffectsConcat(table: set<string>, first: seq<Attempt>, second: seq<Attempt>)
    ensures Effects(table, first + second) == Effects(Effects(table, first), second)
  {
    if second == [] {
      assert first + second == first;
    } else {
      var front, last := second[..|second| - 1], second[|second| - 1];
      EffectsConcat(table, first, front);
      EffectsSnoc(table, first + front, last);
      assert first + second == (first + front) + [last];
    }
  }

  // Every command removes a route that is installed but not desired, or adds one that is desired but not installed.
  ghost predicate OnlyDifferences(installed: set<string>, desired: set<string>, attempts: seq<Attempt>) {
    forall a :: a in attempts ==>
      match a.cmd
      case Remove(key) => key in installed - desired
      case Add(key) => key in desired - installed
  }

  ghost predicate EachOnce(attempts: seq<Attempt>) {
    forall i, j :: 0 <= i < j < |attempts| ==> attempts[i].cmd != attempts[j].cmd
  }

  // The run stops at the first rejected command, and fails exactly when there was one.
  ghost predicate StopsAtFailure(attempts: seq<Attempt>, ok: bool) {
    && (forall i :: 0 <= i < |attempts| ==> (attempts[i].ok <==> ok || i < |attempts| - 1))
    && (!ok ==> attempts != [])
  }

  ghost predicate RemovedAll(keys: set<string>, attempts: seq<Attempt>) {
    forall key :: key in keys ==> Attempt(Remove(key), true) in attempts
  }

  ghost predicate AddedAll(keys: set<string>, attempts: seq<Attempt>) {
    forall key :: key in keys ==> Attempt(Add(key), true) in attempts
  }

  // What one ReplaceECMPRoute call may do: remove what is installed but not desired, in any order, then add
  // what is desired but not installed, in any order, each at most once, stopping at the first failure.
  ghost predicate Replaces(installed: set<string>, desired: set<string>, attempts: seq<Attempt>, ok: bool) {
    && OnlyDifferences(installed, desired, attempts)
    && EachOnce(attempts)
    && StopsAtFailure(attempts, ok)
    && (forall i, j :: 0 <= i < j < |attempts| && attempts[j].cmd.Remove? ==> attempts[i].cmd.Remove?)
    && ((exists a :: a in attempts && a.cmd.Add?) ==> RemovedAll(installed - desired, attempts))
    && (ok ==> RemovedAll(installed - desired, attempts) && AddedAll(desired - installed, attempts))
  }

  // A key is in the table afterwards exactly when an accepted Add put it there, or it was there and no
  // accepted Remove took it away.
  lemma {:induction false} EffectsOf(installed: set<string>, desired: set<string>, attempts: seq<Attempt>, key: string)
    requires OnlyDifferences(installed, desired, attempts)
    ensures key in Effects(installed, attempts) <==>
              if key in installed then Attempt(Remove(key), true) !in attempts
              else Attempt(Add(key), true) in attempts
  {
    if attempts != [] {
      var front, last := attempts[..|attempts| - 1], attempts[|attempts| - 1];
      assert attempts == front + [last];
      EffectsOf(installed, desired, front, key);
    }
  }

  // On success exactly the desired routes are installed, and one command was issued per difference.
  lemma ReplaceSuccess(installed: set<string>, desired: set<string>, attempts: seq<Attempt>)
    requires Replaces(installed, desired, attempts, true)
    ensures Effects(installed, attempts) == desired
    ensures (set a | a in attempts :: a.cmd)
         == (set k | k in installed - desired :: Remove(k)) + (set k | k in desired - installed :: Add(k))
    ensures |attempts| == |installed - desired| + |desired - installed|
  {
    forall key
      ensures key in Effects(installed, attempts) <==> key in desired
    {
      EffectsOf(installed, desired, attempts, key);
    }
    OneCommandPerDifference(installed, desired, attempts);
  }

  lemma OneCommandPerDifference(installed: set<string>, desired: set<string>, attempts: seq<Attempt>)
    requires Replaces(installed, desired, attempts, true)
    ensures (set a | a in attempts :: a.cmd)
         == (set k | k in installed - desired :: Remove(k)) + (set k | k in desired - installed :: Add(k))
    ensures |attempts| == |installed - desired| + |desired - installed|
  {
    var rs, adds := set k | k in installed - desired :: Remove(k), set k | k in desired - installed :: Add(k);
    var cmds := set a | a in attempts :: a.cmd;
    forall c
      ensures c in cmds <==> c in rs + adds
    {
      if c in rs + adds {
        assert Attempt(c, true) in attempts;
      }
    }
    ImageSize(installed - desired, rs, k => Remove(k));
    ImageSize(desired - installed, adds, k => Add(k));
    DistinctCommands(attempts);
  }

  lemma {:induction false} ImageSize(s: set<string>, image: set<Command>, f: string -> Command)
    requires forall k, l :: f(k) == f(l) ==> k == l
    requires image == set k | k in s :: f(k)
    ensures |image| == |s|
  {
    if s != {} {
      var k :| k in s;
      ImageSize(s - {k}, image - {f(k)}, f);
    }
  }

  lemma {:induction false} DistinctCommands(attempts: seq<Attempt>)
    requires EachOnce(attempts)
    ensures |set a | a in attempts :: a.cmd| == |attempts|
  {
    var cmds := set a | a in attempts :: a.cmd;
    if attempts == [] {
      assert cmds == {};
    } else {
      var front, last := attempts[..|attempts| - 1], attempts[|attempts| - 1];
      DistinctCommands(front);
      assert attempts == front + [last];
      assert cmds == (set a | a in front :: a.cmd) + {last.cmd};
    }
  }

  // Whatever happened, the result lies between what was both installed and desired and what was either.
  lemma ReplaceBetween(installed: set<string>, desired: set<string>, attempts: seq<Attempt>, ok: bool)
    requires Replaces(installed, desired, attempts, ok)
    ensures installed * desired <= Effects(installed, attempts) <= installed + desired
  {
    forall key
      ensures key in installed * desired ==> key in Effects(installed, attempts)
      ensures key in Effects(installed, attempts) ==> key in installed + desired
    {
      EffectsOf(installed, desired, attempts, key);
    }
  }

  // When the tables differ in at most one key, at most one command is issued, and its failure changes nothing.
  lemma ReplaceSmallDifference(
    installed: set<string>, desired: set<string>, attempts: seq<Attempt>, ok: bool, key: string)
    requires Replaces(installed, desired, attempts, ok)
    requires (installed - desired) + (desired - installed) <= {key}
    ensures |attempts| <= 1
    ensures attempts == [] <==> installed == desired
    ensures attempts != [] ==> attempts[0].cmd.key == key && attempts[0].ok == ok
    ensures attempts != [] ==> (key in installed <==> key !in desired)
    ensures Effects(installed, attempts) == if ok then desired else installed
  {
    var cmds := set a | a in attempts :: a.cmd;
    DistinctCommands(attempts);
    var only := if key in installed then Remove(key) else Add(key);
    assert cmds == {} || cmds == {only};
    if ok {
      ReplaceSuccess(installed, desired, attempts);
    } else {
      assert |attempts| == 1 ==> attempts[..0] == [] && !attempts[0].ok;
    }
  }

  ghost predicate Removals(installed: set<string>, desired: set<string>, attempts: seq<Attempt>, ok: bool) {
    && (forall a :: a in attempts ==> a.cmd.Remove? && a.cmd.key in installed - desired)
    && EachOnce(attempts) && StopsAtFailure(attempts, ok)
    && (ok ==> RemovedAll(installed - desired, attempts))
  }

  ghost predicate Additions(installed: set<string>, desired: set<string>, attempts: seq<Attempt>, ok: bool) {
    && (forall a :: a in attempts ==> a.cmd.Add? && a.cmd.key in desired - installed)
    && EachOnce(attempts) && StopsAtFailure(attempts, ok)
    && (ok ==> AddedAll(desired - installed, attempts))
  }

  lemma RemovalsThenAdditions(
    installed: set<string>, desired: set<string>, removals: seq<Attempt>, additions: seq<Attempt>, ok: bool)
    requires Removals(installed, desired, removals, true)
    requires Additions(Effects(installed, removals), desired, additions, ok)
    ensures Replaces(installed, desired, removals + additions, ok)
  {
    forall key
      ensures key in Effects(installed, removals) <==> key in installed * desired
    {
      EffectsOf(installed, desired, removals, key);
    }
    var attempts := removals + additions;
    assert forall i :: 0 <= i < |removals| ==> removals[i] in removals;
    assert forall i :: 0 <= i < |additions| ==> additions[i] in additions;
  }

  // The state of the first loop: what has left the list of keys still to look at has been dealt with.
  ghost predicate Removing(installed: set<string>, desired: set<string>, todo: set<string>, attempts: seq<Attempt>) {
    && (forall a :: a in attempts ==> a.ok && a.cmd.Remove? && a.cmd.key in installed - desired - todo)
    && EachOnce(attempts) && RemovedAll(installed - desired - todo, attempts)
  }

  lemma RemovingStep(
    installed: set<string>, desired: set<string>, todo: set<string>, attempts: seq<Attempt>, key: string, ok: bool)
    requires Removing(installed, desired, todo, attempts) && todo <= installed && key in todo && key !in desired
    ensures ok ==> Removing(installed, desired, todo - {key}, attempts + [Attempt(Remove(key), true)])
    ensures !ok ==> Removals(installed, desired, attempts + [Attempt(Remove(key), false)], false)
  {
    assert forall i :: 0 <= i < |attempts| ==> attempts[i] in attempts;
    var after := attempts + [Attempt(Remove(key), ok)];
    assert forall a :: a in after <==> a in attempts || a == Attempt(Remove(key), ok);
    assert installed - desired - (todo - {key}) == (installed - desired - todo) + {key};
  }

  lemma RemovingDone(installed: set<string>, desired: set<string>, attempts: seq<Attempt>)
    requires Removing(installed, desired, {}, attempts)
    ensures Removals(installed, desired, attempts, true)
  {
    assert forall i :: 0 <= i < |attempts| ==> attempts[i] in attempts;
    assert installed - desired - {} == installed - desired;
  }

  // The state of the second loop.
  ghost predicate Adding(installed: set<string>, desired: set<string>, todo: set<string>, attempts: seq<Attempt>) {
    && (forall a :: a in attempts ==> a.ok && a.cmd.Add? && a.cmd.key in desired - installed - todo)
    && EachOnce(attempts) && AddedAll(desired - installed - todo, attempts)
  }

  lemma AddingStep(
    installed: set<string>, desired: set<string>, todo: set<string>, attempts: seq<Attempt>, key: string, ok: bool)
    requires Adding(installed, desired, todo, attempts) && todo <= desired && key in todo && key !in installed
    ensures ok ==> Adding(installed, desired, todo - {key}, attempts + [Attempt(Add(key), true)])
    ensures !ok ==> Additions(installed, desired, attempts + [Attempt(Add(key), false)], false)
  {
    assert forall i :: 0 <= i < |attempts| ==> attempts[i] in attempts;
    var after := attempts + [Attempt(Add(key), ok)];
    assert forall a :: a in after <==> a in attempts || a == Attempt(Add(key), ok);
    assert desired - installed - (todo - {key}) == (desired - installed - todo) + {key};
  }

  lemma AddingDone(installed: set<string>, desired: set<string>, attempts: seq<Attempt>)
    requires Adding(installed, desired, {}, attempts)
    ensures Additions(installed, desired, attempts, true)
  {
    assert forall i :: 0 <= i < |attempts| ==> attempts[i] in attempts;
    assert desired - installed - {} == desired - installed;
  }

  lemma NothingDone(installed: set<string>, desired: set<string>)
    ensures Removing(installed, desired, installed, []) && Adding(installed, desired, desired, [])
    ensures Effects(installed, []) == installed
  {
  }

  // A key that the loop skips is no difference.
  lemma SkipKey(installed: set<string>, desired: set<string>, todo: set<string>, attempts: seq<Attempt>, key: string)
    ensures Removing(installed, desired, todo, attempts) && key in desired
            ==> Removing(installed, desired, todo - {key}, attempts)
    ensures Adding(installed, desired, todo, attempts) && key in installed
            ==> Adding(installed, desired, todo - {key}, attempts)
  {
    if key in desired {
      assert installed - desired - (todo - {key}) == installed - desired - todo;
    }
    if key in installed {
      assert desired - installed - (todo - {key}) == desired - installed - todo;
    }
  }

  // A series of calls and what each did.
  datatype Call = Call(desired: set<string>, attempts: seq<Attempt>, ok: bool)

  function After(installed: set<string>, calls: seq<Call>): set<string> {
    if calls == [] then installed
    else Effects(After(installed, calls[..|calls| - 1]), calls[|calls| - 1].attempts)
  }

  ghost predicate AllReplace(installed: set<string>, calls: seq<Call>) {
    forall i :: 0 <= i < |calls| ==>
      Replaces(After(installed, calls[..i]), calls[i].desired, calls[i].attempts, calls[i].ok)
  }

  // After any series of calls, successful or not, one more successful call leaves exactly its desired routes.
  lemma SuccessRepairs(installed: set<string>, calls: seq<Call>)
    requires AllReplace(installed, calls) && calls != [] && calls[|calls| - 1].ok
    ensures After(installed, calls) == calls[|calls| - 1].desired
  {
    var n := |calls| - 1;
    ReplaceSuccess(After(installed, calls[..n]), calls[n].desired, calls[n].attempts);
  }

  /* ---------- The objects ---------- */

  method KeySet(nexthops: seq<Nexthop>) returns (keys: set<string>)
    ensures keys == Keys(nexthops)
  {
    hide NhKey;
    keys := {};
    for i := 0 to |nexthops|
      invariant keys == Keys(nexthops[..i])
    {
      keys := keys + {NhKey(nexthops[i])};
      assert nexthops[..i + 1] == nexthops[..i] + [nexthops[i]];
    }
    assert nexthops[..|nexthops|] == nexthops;
  }

  // FRR, as vtysh shows it: a table of static default routes. Each command is accepted or rejected.
  class FRR {
    var table: set<string>
    ghost var log: seq<Attempt>

    constructor (table: set<string>)
      ensures this.table == table && log == []
    {
      this.table := table;
      log := [];
    }

    method Configure(cmd: Command) returns (ok: bool)
      modifies this
      ensures log == old(log) + [Attempt(cmd, ok)]
      ensures table == Effect(old(table), Attempt(cmd, ok))
    {
      ok := *;
      if ok {
        match cmd
        case Remove(key) => table := table - {key};
        case Add(key) => table := table + {key};
      }
      log := log + [Attempt(cmd, ok)];
    }
  }

  // A policy rule as the controller builds it; the vtysh manager ignores it.
  datatype PolicyRule = PolicyRule(name: string, priority: int, source: Block, gateway: IP, device: string)

  datatype PolicyCall = AddRule(rule: PolicyRule) | DelRule(rule: PolicyRule)

  // The rules present in a manager that carries out every policy call it receives.
  function PolicyTable(calls: seq<PolicyCall>): set<PolicyRule> {
    if calls == [] then {}
    else
      var before := PolicyTable(calls[..|calls| - 1]);
      match calls[|calls| - 1]
      case AddRule(r) => before + {r}
      case DelRule(r) => before - {r}
  }

  class VtyshRouteManager {
    var installed: set<string>
    const frr: FRR
    // The calls received through the policy half of the interface.
    ghost var policyCalls: seq<PolicyCall>

    constructor (initialRoutes: seq<Nexthop>, frr: FRR)
      ensures installed == Keys(initialRoutes) && this.frr == frr && policyCalls == []
    {
      var known := KeySet(initialRoutes);
      installed := known;
      this.frr := frr;
      policyCalls := [];
    }

    method ReplaceECMPRoute(nexthops: seq<Nexthop>) returns (ok: bool, ghost attempts: seq<Attempt>)
      modifies this`installed, frr
      ensures Replaces(old(installed), Keys(nexthops), attempts, ok)
      ensures installed == Effects(old(installed), attempts)
      ensures frr.log == old(frr.log) + attempts
      ensures frr.table == Effects(old(frr.table), attempts)
    {
      hide Keys;
      var desired := KeySet(nexthops);
      ok, attempts := RemoveUndesired(desired);
      if !ok {
        return;
      }
      ghost var removals := attempts;
      ghost var additions;
      ok, additions := AddMissing(desired);
      attempts := removals + additions;
      EffectsConcat(old(installed), removals, additions);
      EffectsConcat(old(frr.table), removals, additions);
      RemovalsThenAdditions(old(installed), desired, removals, additions, ok);
    }

    // The first loop of ReplaceECMPRoute.
    method RemoveUndesired(desired: set<string>) returns (ok: bool, ghost attempts: seq<Attempt>)
      modifies this`installed, frr
      ensures Removals(old(installed), desired, attempts, ok)
      ensures installed == Effects(old(installed), attempts)
      ensures frr.log == old(frr.log) + attempts
      ensures frr.table == Effects(old(frr.table), attempts)
    {
      hide Removing, Removals, Effects;
      attempts := [];
      var todo := installed;
      NothingDone(installed, desired);
      NothingDone(frr.table, desired);
      while todo != {}
        invariant todo <= old(installed)
        invariant Removing(old(installed), desired, todo, attempts)
        invariant installed == Effects(old(installed), attempts)
        invariant frr.log == old(frr.log) + attempts && frr.table == Effects(old(frr.table), attempts)
      {
        var key :| key in todo;
        if key !in desired {
          ok := frr.Configure(Remove(key));
          RemovingStep(old(installed), desired, todo, attempts, key, ok);
          EffectsSnoc(old(installed), attempts, Attempt(Remove(key), ok));
          EffectsSnoc(old(frr.table), attempts, Attempt(Remove(key), ok));
          attempts := attempts + [Attempt(Remove(key), ok)];
          if !ok {
            return;
          }
          installed := installed - {key};
        } else {
          SkipKey(old(installed), desired, todo, attempts, key);
        }
        todo := todo - {key};
      }
      RemovingDone(old(installed), desired, attempts);
      ok := true;
    }

    // The second loop of ReplaceECMPRoute.
    method AddMissing(desired: set<string>) returns (ok: bool, ghost attempts: seq<Attempt>)
      modifies this`installed, frr
      ensures Additions(old(installed), desired, attempts, ok)
      ensures installed == Effects(old(installed), attempts)
      ensures frr.log == old(frr.log) + attempts
      ensures frr.table == Effects(old(frr.table), attempts)
    {
      hide Adding, Additions, Effects;
      attempts := [];
      var todo := desired;
      NothingDone(installed, desired);
      NothingDone(frr.table, desired);
      while todo != {}
        invariant todo <= desired
        invariant Adding(old(installed), desired, todo, attempts)
        invariant forall k :: k in todo ==> (k in installed <==> k in old(installed))
        invariant installed == Effects(old(installed), attempts)
        invariant frr.log == old(frr.log) + attempts && frr.table == Effects(old(frr.table), attempts)
      {
        var key :| key in todo;
        if key !in installed {
          ok := frr.Configure(Add(key));
          AddingStep(old(installed), desired, todo, attempts, key, ok);
          EffectsSnoc(old(installed), attempts, Attempt(Add(key), ok));
          EffectsSnoc(old(frr.table), attempts, Attempt(Add(key), ok));
          attempts := attempts + [Attempt(Add(key), ok)];
          if !ok {
            return;
          }
          installed := installed + {key};
        } else {
          SkipKey(old(installed), desired, todo, attempts, key);
        }
        todo := todo - {key};
      }
      AddingDone(old(installed), desired, attempts);
      ok := true;
    }

    // Policy routing is rendered statically into frr.conf; these calls do nothing.
    method AddPBRRule(rule: PolicyRule)
      modifies this`policyCalls
      ensures policyCalls == old(policyCalls) + [AddRule(rule)]
    {
      policyCalls := policyCalls + [AddRule(rule)];
    }

    method DelPBRRule(rule: PolicyRule)
      modifies this`policyCalls
      ensures policyCalls == old(policyCalls) + [DelRule(rule)]
    {
      policyCalls := policyCalls + [DelRule(rule)];
    }
  }
}
