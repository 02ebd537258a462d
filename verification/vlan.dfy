/**
 VLAN reconciliation (ProvisionVLANs in internal/apply/apply.go) over an abstract link table. Every `ip` command
 may fail; what a run does when none fails is stated as a function of the link table it started from.
 */
module VLAN {
  import opened Text
  import opened Config

  datatype Link = Link(parent: Option<string>, vid: int, up: bool, addrs: set<string>)

  type Links = map<string, Link>

  /* ---------- Device names ---------- */

  function LastIndexOf(s: string, c: char): (i: int)
    ensures -1 <= i < |s|
    ensures i >= 0 ==> s[i] == c
    ensures forall j :: i < j < |s| ==> s[j] != c
  {
    if s == [] then -1
    else if s[|s| - 1] == c then |s| - 1
    else LastIndexOf(s[..|s| - 1], c)
  }

  function ParentDevice(device: string): string {
    var i := LastIndexOf(device, '.');
    if i > 0 then device[..i] else ""
  }

  // The parent is what stands before the last dot, and there is none when no dot has text before it.
  lemma ParentDeviceMeaning(device: string, parent: string)
    ensures ParentDevice(device) == parent && parent != "" <==>
              parent != "" && parent + "." <= device && '.' !in device[|parent| + 1..]
    ensures ParentDevice(device) == "" <==> '.' !in (if device == "" then "" else device[1..])
  {
    var i := LastIndexOf(device, '.');
    if i > 0 {
      assert device[1..][i - 1] == '.';
      assert device[..i] + "." <= device;
    }
    if parent != "" && parent + "." <= device && '.' !in device[|parent| + 1..] {
      assert device[|parent|] == (parent + ".")[|parent|] == '.';
      assert forall j :: |parent| < j < |device| ==> device[j] == device[|parent| + 1..][j - |parent| - 1];
      assert i == |parent| && device[..i] == parent;
    }
  }

  /* ---------- What a run should do ---------- */

  // desiredVLANs: by device, the last entry wins.
  function Desired(ifs: seq<Interface>): map<string, Interface> {
    if ifs == [] then map[]
    else
      var front, last := Desired(ifs[..|ifs| - 1]), ifs[|ifs| - 1];
      if last.vlan > 0 then front[last.device := last] else front
  }

  function Parents(desired: map<string, Interface>): set<string> {
    (set d | d in desired :: ParentDevice(d)) - {""}
  }

  // A VLAN on a known parent that the configuration does not name.
  predicate Stale(links: Links, desired: map<string, Interface>, name: string) {
    && name in links && name !in desired
    && links[name].parent.Some? && links[name].parent.value in Parents(desired)
  }

  // No link sits on one that has to go, as it never does when VLANs do not sit on VLANs.
  predicate NothingOnStale(links: Links, desired: map<string, Interface>) {
    forall n :: n in links && links[n].parent.Some? ==> !Stale(links, desired, links[n].parent.value)
  }

  predicate NoStacking(links: Links) {
    forall n, m :: n in links && m in links && links[n].parent == Some(m) ==> links[m].parent == None
  }

  lemma UnstackedIsFine(links: Links, desired: map<string, Interface>)
    requires NoStacking(links)
    ensures NothingOnStale(links, desired)
  {
  }

  function Kept(links: Links, desired: map<string, Interface>): Links {
    map n | n in links && !Stale(links, desired, n) :: links[n]
  }

  predicate IsStatic(f: Interface) {
    f.address != "" && f.address != "dhcp"
  }

  // A missing device is created and brought up; a static address becomes its only one.
  function LinkFor(links: Links, f: Interface): Link {
    var link := if f.device in links then links[f.device] else Link(Some(ParentDevice(f.device)), f.vlan, true, {});
    if IsStatic(f) then link.(addrs := {f.address}) else link
  }

  function Ensured(links: Links, f: Interface): Links {
    if f.vlan <= 0 then links else links[f.device := LinkFor(links, f)]
  }

  function EnsuredAll(links: Links, ifs: seq<Interface>): Links {
    if ifs == [] then links else Ensured(EnsuredAll(links, ifs[..|ifs| - 1]), ifs[|ifs| - 1])
  }

  function Reconciled(links: Links, ifs: seq<Interface>): Links {
    EnsuredAll(Kept(links, Desired(ifs)), ifs)
  }

  /* ---------- The host ---------- */

  datatype Outcome = Done | FileExists | Failed

  class Host {
    var links: Links
    // How many commands have failed; a link that `show` does not find and an address already there are no failures.
    ghost var failures: nat

    constructor (initial: Links)
      ensures links == initial && failures == 0
    {
      links := initial;
      failures := 0;
    }

    // `ip -o link show type vlan`, the names on one parent.
    method ListOn(parent: string) returns (ok: bool, names: set<string>)
      modifies this`failures
      ensures ok <==> failures == old(failures)
      ensures failures >= old(failures)
      ensures ok ==> forall n :: n in names <==> n in links && links[n].parent == Some(parent)
    {
      ok := *;
      names := {};
      if ok {
        names := set n | n in links && links[n].parent == Some(parent);
      } else {
        failures := failures + 1;
      }
    }

    // `ip link delete` also takes the VLANs that sit on the device.
    method Delete(name: string)
      modifies this
      ensures failures >= old(failures)
      ensures failures == old(failures) ==> name !in links
      ensures forall n :: n in links ==> n in old(links) && links[n] == old(links)[n]
      ensures forall n :: n in old(links) && n != name && old(links)[n].parent != Some(name) ==> n in links
    {
      var fault: bool := *;
      if fault || name !in links {
        failures := failures + 1;
      } else {
        links := map n | n in links && n != name && links[n].parent != Some(name) :: links[n];
      }
    }

    method Show(name: string) returns (found: bool)
      modifies this`failures
      ensures failures >= old(failures)
      ensures failures == old(failures) ==> (found <==> name in links)
      ensures found ==> name in links
    {
      var fault: bool := *;
      if fault {
        failures := failures + 1;
      }
      found := !fault && name in links;
    }

    // The kernel refuses a name or a VLAN id of that parent that is taken, and a parent that is missing.
    method Add(parent: string, name: string, vid: int) returns (ok: bool)
      modifies this
      ensures ok <==> failures == old(failures)
      ensures failures >= old(failures)
      ensures ok ==> name !in old(links) && links == old(links)[name := Link(Some(parent), vid, false, {})]
      ensures !ok ==> links == old(links)
    {
      var fault: bool := *;
      var taken := exists n :: n in links && links[n].parent == Some(parent) && links[n].vid == vid;
      ok := !fault && !taken && name !in links && parent in links;
      if ok {
        links := links[name := Link(Some(parent), vid, false, {})];
      } else {
        failures := failures + 1;
      }
    }

    method SetUp(name: string) returns (ok: bool)
      modifies this
      ensures ok <==> failures == old(failures)
      ensures failures >= old(failures)
      ensures ok ==> name in old(links) && links == old(links)[name := old(links)[name].(up := true)]
      ensures !ok ==> links == old(links)
    {
      var fault: bool := *;
      ok := !fault && name in links;
      if ok {
        links := links[name := links[name].(up := true)];
      } else {
        failures := failures + 1;
      }
    }

    method Flush(name: string)
      modifies this
      ensures failures >= old(failures)
      ensures failures == old(failures) ==>
                name in old(links) && links == old(links)[name := old(links)[name].(addrs := {})]
      ensures failures > old(failures) ==> links == old(links)
    {
      var fault: bool := *;
      if fault || name !in links {
        failures := failures + 1;
      } else {
        links := links[name := links[name].(addrs := {})];
      }
    }

    method AddAddress(name: string, address: string) returns (o: Outcome)
      modifies this
      ensures o != Failed <==> failures == old(failures)
      ensures failures >= old(failures)
      ensures o != Failed ==> name in old(links)
      ensures o == FileExists ==> address in old(links)[name].addrs && links == old(links)
      ensures o == Done ==>
                links == old(links)[name := old(links)[name].(addrs := old(links)[name].addrs + {address})]
      ensures o == Failed ==> links == old(links)
    {
      var fault: bool := *;
      if fault || name !in links {
        o := Failed;
        failures := failures + 1;
      } else if address in links[name].addrs {
        o := FileExists;
      } else {
        o := Done;
        links := links[name := links[name].(addrs := links[name].addrs + {address})];
      }
    }

    // The first two loops of ProvisionVLANs fill the tables.
    method CollectDesired(ifs: seq<Interface>) returns (desired: map<string, Interface>, parents: set<string>)
      ensures desired == Desired(ifs) && parents == Parents(desired)
      ensures forall d :: d in desired ==> LastEntry(ifs, d, desired[d])
    {
      desired := map[];
      for i := 0 to |ifs|
        invariant desired == Desired(ifs[..i])
      {
        assert ifs[..i + 1][..i] == ifs[..i];
        if ifs[i].vlan > 0 {
          desired := desired[ifs[i].device := ifs[i]];
        }
      }
      assert ifs[..|ifs|] == ifs;
      parents := {};
      var rest := desired.Keys;
      while rest != {}
        invariant rest <= desired.Keys
        invariant parents == (set d | d in desired.Keys - rest :: ParentDevice(d)) - {""}
        decreases rest
      {
        var d :| d in rest;
        var parent := ParentDevice(d);
        ghost var before := desired.Keys - rest;
        if parent != "" {
          parents := parents + {parent};
        }
        rest := rest - {d};
        assert desired.Keys - rest == before + {d};
      }
      assert desired.Keys - rest == desired.Keys;
      forall d | d in desired
        ensures LastEntry(ifs, d, desired[d])
      {
        DesiredIsLast(ifs, d);
      }
    }

    // Stale VLANs go, parents and names in any order; errors are ignored.
    method RemoveStale(desired: map<string, Interface>, parents: set<string>)
      requires parents == Parents(desired)
      modifies this
      ensures failures >= old(failures)
      ensures forall n :: n in links ==> n in old(links) && links[n] == old(links)[n]
      ensures NothingOnStale(old(links), desired) ==>
                forall n :: n in old(links) && !Stale(old(links), desired, n) ==> n in links
      ensures NothingOnStale(old(links), desired) && failures == old(failures) ==> links == Kept(old(links), desired)
    {
      var rest := parents;
      while rest != {}
        invariant rest <= parents
        invariant failures >= old(failures)
        invariant forall n :: n in links ==> n in old(links) && links[n] == old(links)[n]
        invariant NothingOnStale(old(links), desired) ==>
                    forall n :: n in old(links) && !Stale(old(links), desired, n) ==> n in links
        invariant failures == old(failures) ==>
                    forall n :: n in links && Stale(old(links), desired, n) ==> links[n].parent.value in rest
        decreases rest
      {
        var parent :| parent in rest;
        rest := rest - {parent};
        var ok, names := ListOn(parent);
        if ok {
          DeleteUnwanted(parent, names, desired);
        }
      }
    }

    method DeleteUnwanted(ghost parent: string, names: set<string>, desired: map<string, Interface>)
      requires forall n :: n in names ==> n in links && links[n].parent == Some(parent)
      requires parent in Parents(desired)
      modifies this
      ensures failures >= old(failures)
      ensures forall n :: n in links ==> n in old(links) && links[n] == old(links)[n]
      ensures NothingOnStale(old(links), desired) ==>
                forall n :: n in old(links) && (n !in names || n in desired) ==> n in links
      ensures failures == old(failures) ==> forall n :: n in names && n in links ==> n in desired
    {
      var rest := names;
      while rest != {}
        invariant rest <= names
        invariant failures >= old(failures)
        invariant forall n :: n in links ==> n in old(links) && links[n] == old(links)[n]
        invariant NothingOnStale(old(links), desired) ==>
                    forall n :: n in old(links) && (n !in names || n in desired) ==> n in links
        invariant failures == old(failures) ==> forall n :: n in names - rest && n in links ==> n in desired
        decreases rest
      {
        var n :| n in rest;
        rest := rest - {n};
        if n !in desired {
          Delete(n);
        }
      }
    }

    // One turn of the last loop. On an error only the device of the entry may have changed.
    method Ensure(f: Interface) returns (ok: bool)
      modifies this
      ensures failures >= old(failures)
      ensures ok ==> f.vlan <= 0 || ParentDevice(f.device) != ""
      ensures failures == old(failures) ==> ok == (f.vlan <= 0 || ParentDevice(f.device) != "")
      ensures ok && failures == old(failures) ==> links == Ensured(old(links), f)
      ensures ok && failures == old(failures) && f.vlan > 0 ==>
                f.device in links
                && links[f.device] == EntryFor(f, if f.device in old(links) then Some(old(links)[f.device]) else None)
      ensures f.vlan <= 0 ==> links == old(links)
      ensures forall n :: n != f.device ==> (n in links <==> n in old(links))
      ensures forall n :: n != f.device && n in links ==> links[n] == old(links)[n]
    {
      if f.vlan <= 0 {
        return true;
      }
      var parent := ParentDevice(f.device);
      if parent == "" {
        return false;
      }
      var found := Show(f.device);
      if !found {
        ok := Add(parent, f.device, f.vlan);
        if !ok {
          return false;
        }
        ok := SetUp(f.device);
        if !ok {
          return false;
        }
      }
      ok := true;
      if f.address != "" && f.address != "dhcp" {
        if found {
          Flush(f.device);
        }
        var o := AddAddress(f.device, f.address);
        ok := o != Failed;
      }
      if ok && failures == old(failures) {
        assert links[f.device] == LinkFor(old(links), f);
        assert links == Ensured(old(links), f);
      }
    }

    // The last loop.
    method EnsureAll(ifs: seq<Interface>) returns (ok: bool)
      modifies this
      ensures failures >= old(failures)
      ensures ok ==> AllHaveParents(ifs)
      ensures failures == old(failures) ==> ok == AllHaveParents(ifs)
      ensures ok && failures == old(failures) ==> links == EnsuredAll(old(links), ifs)
      ensures forall n :: n !in Desired(ifs) ==> (n in links <==> n in old(links))
      ensures forall n :: n !in Desired(ifs) && n in links ==> links[n] == old(links)[n]
    {
      for i := 0 to |ifs|
        invariant failures >= old(failures)
        invariant AllHaveParents(ifs[..i])
        invariant failures == old(failures) ==> links == EnsuredAll(old(links), ifs[..i])
        invariant forall n :: n !in Desired(ifs) ==> (n in links <==> n in old(links))
        invariant forall n :: n !in Desired(ifs) && n in links ==> links[n] == old(links)[n]
      {
        assert ifs[..i + 1][..i] == ifs[..i];
        DesiredHas(ifs, i);
        ok := Ensure(ifs[i]);
        if !ok {
          assert ifs[i] in ifs;
          return false;
        }
      }
      assert ifs[..|ifs|] == ifs;
      ok := true;
    }

    /**
     ProvisionVLANs. Without failing commands it succeeds exactly when every VLAN has a parent in its name, and then
     leaves the reconciled table. Whatever fails, links that are neither named nor stale stay as they were.
     */
    method ProvisionVLANs(ifs: seq<Interface>) returns (ok: bool)
      modifies this
      ensures failures >= old(failures)
      ensures ok ==> AllHaveParents(ifs)
      ensures failures == old(failures) ==> ok == AllHaveParents(ifs)
      ensures ok && failures == old(failures) && NothingOnStale(old(links), Desired(ifs)) ==>
                links == Reconciled(old(links), ifs)
      ensures ok && failures == old(failures) && NothingOnStale(old(links), Desired(ifs)) && DistinctDevices(ifs) ==>
                Provisioned(old(links), ifs, links)
      ensures NothingOnStale(old(links), Desired(ifs)) ==>
                forall n :: n in old(links) && n !in Desired(ifs) && !Stale(old(links), Desired(ifs), n) ==>
                              n in links && links[n] == old(links)[n]
      ensures forall n :: n in links && n !in old(links) ==> n in Desired(ifs)
    {
      var desired, parents := CollectDesired(ifs);
      RemoveStale(desired, parents);
      ok := EnsureAll(ifs);
      if DistinctDevices(ifs) {
        ReconciledMeaning(old(links), ifs);
      }
    }
  }

  ghost predicate AllHaveParents(ifs: seq<Interface>) {
    forall f :: f in ifs && f.vlan > 0 ==> ParentDevice(f.device) != ""
  }

  lemma {:induction false} DesiredHas(ifs: seq<Interface>, i: nat)
    requires i < |ifs|
    ensures ifs[i].vlan > 0 ==> ifs[i].device in Desired(ifs)
  {
    if i < |ifs| - 1 {
      DesiredHas(ifs[..|ifs| - 1], i);
    }
  }

  /* ---------- What the reconciled table is ---------- */

  lemma {:induction false} DesiredMeaning(ifs: seq<Interface>, d: string)
    ensures d in Desired(ifs) <==> exists f :: f in ifs && f.vlan > 0 && f.device == d
    ensures d in Desired(ifs) ==> Desired(ifs)[d] in ifs && Desired(ifs)[d].vlan > 0 && Desired(ifs)[d].device == d
  {
    if ifs != [] {
      var front, last := ifs[..|ifs| - 1], ifs[|ifs| - 1];
      DesiredMeaning(front, d);
      assert last in ifs && forall f :: f in ifs <==> f in front || f == last;
    }
  }

  // Of several entries for a device the last one counts.
  ghost predicate LastEntryAt(ifs: seq<Interface>, d: string, i: int, f: Interface) {
    && 0 <= i < |ifs| && ifs[i] == f && f.vlan > 0 && f.device == d
    && forall j :: i < j < |ifs| && ifs[j].vlan > 0 ==> ifs[j].device != d
  }

  ghost predicate LastEntry(ifs: seq<Interface>, d: string, f: Interface) {
    exists i :: LastEntryAt(ifs, d, i, f)
  }

  lemma {:induction false} DesiredIsLast(ifs: seq<Interface>, d: string)
    requires d in Desired(ifs)
    ensures LastEntry(ifs, d, Desired(ifs)[d])
  {
    var front, last := ifs[..|ifs| - 1], ifs[|ifs| - 1];
    var f := Desired(ifs)[d];
    if last.vlan > 0 && last.device == d {
      assert LastEntryAt(ifs, d, |ifs| - 1, f);
    } else {
      DesiredIsLast(front, d);
      var i :| LastEntryAt(front, d, i, f);
      assert LastEntryAt(ifs, d, i, f);
    }
  }

  // With distinct devices a device has one entry.
  lemma DesiredIsOnly(ifs: seq<Interface>, f: Interface)
    requires DistinctDevices(ifs) && f in ifs && f.vlan > 0
    ensures f.device in Desired(ifs) && Desired(ifs)[f.device] == f
  {
  }

  // The reconciled table, link by link, without any order.
  function Target(links: Links, desired: map<string, Interface>): Links {
    var kept := Kept(links, desired);
    map n | n in kept.Keys + desired.Keys :: if n in desired then LinkFor(kept, desired[n]) else kept[n]
  }

  lemma {:induction false} EnsuredAllMeaning(kept: Links, ifs: seq<Interface>, n: string)
    requires DistinctDevices(ifs)
    ensures n in EnsuredAll(kept, ifs) <==> n in kept || n in Desired(ifs)
    ensures n in Desired(ifs) ==> EnsuredAll(kept, ifs)[n] == LinkFor(kept, Desired(ifs)[n])
    ensures n in kept && n !in Desired(ifs) ==> EnsuredAll(kept, ifs)[n] == kept[n]
  {
    if ifs != [] {
      var front, last := ifs[..|ifs| - 1], ifs[|ifs| - 1];
      EnsuredAllMeaning(kept, front, n);
      if last.vlan > 0 && n == last.device {
        DesiredMeaning(front, n);
      }
    }
  }

  lemma ReconciledIsTarget(links: Links, ifs: seq<Interface>)
    requires DistinctDevices(ifs)
    ensures Reconciled(links, ifs) == Target(links, Desired(ifs))
  {
    var kept, t := Kept(links, Desired(ifs)), Target(links, Desired(ifs));
    DesiredDevices(ifs);
    forall n: string
      ensures n in Reconciled(links, ifs) <==> n in t
      ensures n in t ==> Reconciled(links, ifs)[n] == t[n]
    {
      EnsuredAllMeaning(kept, ifs, n);
    }
  }

  lemma DesiredDevices(ifs: seq<Interface>)
    ensures forall d :: d in Desired(ifs) ==> Desired(ifs)[d].device == d
  {
  }

  /**
   What a run leaves, in terms of the configuration. A link that is not a configured VLAN goes exactly when it sits on
   the parent of a configured one, and otherwise stays as it was. A configured VLAN that was there keeps its parent, id
   and state, and a static one gets its address as its only one; a missing one is created with the parent in its name
   and its own id, is brought up, and has no address but a static one.
   */
  ghost predicate Provisioned(before: Links, ifs: seq<Interface>, after: Links) {
    && (forall n :: (forall f :: f in ifs && f.vlan > 0 ==> f.device != n) ==>
          && (n in after <==> n in before && !OnKnownParent(ifs, before[n]))
          && (n in after ==> after[n] == before[n]))
    && (forall f :: f in ifs && f.vlan > 0 ==>
          && f.device in after
          && after[f.device] == EntryFor(f, if f.device in before then Some(before[f.device]) else None))
  }

  // Main result.
  lemma ReconciledMeaning(links: Links, ifs: seq<Interface>)
    requires DistinctDevices(ifs)
    ensures Provisioned(links, ifs, Reconciled(links, ifs))
  {
    hide Reconciled, OnKnownParent, EntryFor, DistinctDevices;
    forall n | forall f :: f in ifs && f.vlan > 0 ==> f.device != n
      ensures n in Reconciled(links, ifs) <==> n in links && !OnKnownParent(ifs, links[n])
      ensures n in Reconciled(links, ifs) ==> Reconciled(links, ifs)[n] == links[n]
    {
      OtherReconciled(links, ifs, n);
    }
    forall f | f in ifs && f.vlan > 0
      ensures f.device in Reconciled(links, ifs)
      ensures Reconciled(links, ifs)[f.device]
           == EntryFor(f, if f.device in links then Some(links[f.device]) else None)
    {
      EntryReconciled(links, ifs, f);
    }
  }

  lemma OtherReconciled(links: Links, ifs: seq<Interface>, n: string)
    requires DistinctDevices(ifs) && forall f :: f in ifs && f.vlan > 0 ==> f.device != n
    ensures n in Reconciled(links, ifs) <==> n in links && !OnKnownParent(ifs, links[n])
    ensures n in Reconciled(links, ifs) ==> Reconciled(links, ifs)[n] == links[n]
  {
    hide Reconciled, Stale, OnKnownParent, LinkFor, DistinctDevices;
    ReconciledIsTarget(links, ifs);
    DesiredMeaning(ifs, n);
    if n in links {
      StaleMeaning(links, ifs, n);
    }
  }

  lemma EntryReconciled(links: Links, ifs: seq<Interface>, f: Interface)
    requires DistinctDevices(ifs) && f in ifs && f.vlan > 0
    ensures f.device in Reconciled(links, ifs)
    ensures Reconciled(links, ifs)[f.device] == EntryFor(f, if f.device in links then Some(links[f.device]) else None)
  {
    hide Reconciled, Desired, DistinctDevices;
    ReconciledIsTarget(links, ifs);
    DesiredIsOnly(ifs, f);
  }

  ghost predicate OnKnownParent(ifs: seq<Interface>, link: Link) {
    link.parent.Some? && link.parent.value != ""
    && exists f :: f in ifs && f.vlan > 0 && ParentDevice(f.device) == link.parent.value
  }

  function EntryFor(f: Interface, before: Option<Link>): Link {
    var fixed := f.address != "" && f.address != "dhcp";
    match before
    case Some(link) => Link(link.parent, link.vid, link.up, if fixed then {f.address} else link.addrs)
    case None => Link(Some(ParentDevice(f.device)), f.vlan, true, if fixed then {f.address} else {})
  }

  lemma StaleMeaning(links: Links, ifs: seq<Interface>, n: string)
    requires n in links && n !in Desired(ifs)
    ensures Stale(links, Desired(ifs), n) <==> OnKnownParent(ifs, links[n])
  {
    forall d: string
      ensures d in Desired(ifs) <==> exists f :: f in ifs && f.vlan > 0 && f.device == d
    {
      DesiredMeaning(ifs, d);
    }
  }

  // No link of the result is stale.
  lemma NothingStaleLeft(links: Links, ifs: seq<Interface>, n: string)
    requires DistinctDevices(ifs)
    ensures !Stale(Reconciled(links, ifs), Desired(ifs), n)
  {
    ReconciledIsTarget(links, ifs);
  }

  // A link on a parent that the configuration does not mention is never stale.
  lemma OtherParentsUntouched(links: Links, ifs: seq<Interface>, n: string)
    requires DistinctDevices(ifs) && n in links && n !in Desired(ifs)
    requires forall f :: f in ifs && f.vlan > 0 ==> links[n].parent != Some(ParentDevice(f.device))
    ensures n in Reconciled(links, ifs) && Reconciled(links, ifs)[n] == links[n]
  {
    ReconciledMeaning(links, ifs);
    DesiredMeaning(ifs, n);
  }

  // A device that is already there keeps its parent, its VLAN id and its state, whatever the entry says.
  lemma ExistingDeviceKeepsItsId(links: Links, ifs: seq<Interface>, f: Interface)
    requires DistinctDevices(ifs) && f in ifs && f.vlan > 0 && f.device in links
    ensures f.device in Reconciled(links, ifs)
    ensures Reconciled(links, ifs)[f.device]
         == if IsStatic(f) then links[f.device].(addrs := {f.address}) else links[f.device]
  {
    ReconciledIsTarget(links, ifs);
    DesiredIsOnly(ifs, f);
  }

  // The order of the entries does not matter.
  lemma OrderDoesNotMatter(links: Links, a: seq<Interface>, b: seq<Interface>)
    requires DistinctDevices(a) && DistinctDevices(b)
    requires forall f :: f in a <==> f in b
    ensures Reconciled(links, a) == Reconciled(links, b)
  {
    forall d: string
      ensures d in Desired(a) <==> d in Desired(b)
      ensures d in Desired(a) ==> Desired(a)[d] == Desired(b)[d]
    {
      DesiredMeaning(a, d);
      DesiredMeaning(b, d);
      if d in Desired(a) {
        DesiredIsOnly(b, Desired(a)[d]);
      }
    }
    assert Desired(a) == Desired(b);
    ReconciledIsTarget(links, a);
    ReconciledIsTarget(links, b);
  }

  // A second run changes nothing.
  lemma SecondRunChangesNothing(links: Links, ifs: seq<Interface>)
    requires DistinctDevices(ifs)
    ensures Reconciled(Reconciled(links, ifs), ifs) == Reconciled(links, ifs)
    ensures NothingOnStale(Reconciled(links, ifs), Desired(ifs))
  {
    hide DistinctDevices, Reconciled, Desired;
    var desired := Desired(ifs);
    ReconciledIsTarget(links, ifs);
    ReconciledIsTarget(Target(links, desired), ifs);
    DesiredDevices(ifs);
    TargetIsStable(links, desired);
  }

  lemma TargetIsStable(links: Links, desired: map<string, Interface>)
    requires forall d :: d in desired ==> desired[d].device == d
    ensures Target(Target(links, desired), desired) == Target(links, desired)
    ensures NothingOnStale(Target(links, desired), desired)
  {
    var t := Target(links, desired);
    assert Kept(t, desired) == t;
    assert forall d :: d in desired ==> LinkFor(t, desired[d]) == t[d];
  }

  // Two calls of ProvisionVLANs in a row: when no command of either fails, the second leaves the links as the first
  // left them, stacked VLANs included.
  method ProvisionTwice(host: Host, ifs: seq<Interface>) returns (first: bool, second: bool, ghost between: Links)
    requires DistinctDevices(ifs)
    modifies host
    ensures first && second && host.failures == old(host.failures) && NothingOnStale(old(host.links), Desired(ifs)) ==>
              host.links == between == Reconciled(old(host.links), ifs)
    ensures host.failures == old(host.failures) ==> first == second
  {
    first := host.ProvisionVLANs(ifs);
    between := host.links;
    SecondRunChangesNothing(old(host.links), ifs);
    second := host.ProvisionVLANs(ifs);
  }
}
