/**
 The failover loop as a whole: one probing goroutine per uplink, the callback it delivers after releasing the
 prober's lock, and the controller that serves callbacks one at a time while it holds its own lock.
 Goroutines interleave freely; every vtysh command may be accepted or refused.
 */
module FailoverSystem {
  import opened Text
  import opened Health
  import opened Routes
  import opened Failover

  datatype Plan = Plan(site: Site, thresholds: map<string, nat>)

  ghost predicate WellFormed(p: Plan) {
    && p.thresholds.Keys == p.site.uplinks.Keys
    && (forall u :: u in p.thresholds ==> p.thresholds[u] >= 1)
  }

  datatype System = System(
    history: map<string, seq<bool>>,      // every probe result so far
    prober: map<string, Snapshot>,        // the prober's states
    inFlight: map<string, Transition>,    // committed by a goroutine, not yet handled by the controller
    delivered: map<string, Status>,       // the status the controller last heard
    refused: set<string>,                 // uplinks whose latest Down or Healthy callback met a refused command
    control: Control)

  datatype Step =
    | Probe(uplink: string, failed: bool)
    | Deliver(uplink: string, attempts: seq<Attempt>, ok: bool)

  // cmdMonitor has installed the initial routes and starts the goroutines. The manager takes the wanted routes to be
  // installed; what FRR holds is another matter, since an earlier monitor may have withdrawn some of them.
  ghost predicate Initial(p: Plan, s: System) {
    && s.history == (map u | u in p.site.uplinks :: [])
    && s.prober == (map u | u in p.site.uplinks :: INITIAL)
    && s.inFlight == map[]
    && s.delivered == (map u | u in p.site.uplinks :: Unknown)
    && s.refused == {}
    && s.control.active == (map u | u in p.site.uplinks :: true)
    && Tracks(p.site, s.control)
    && PolicyFollows(p.site, s.control)
  }

  // A goroutine probes only after its previous callback has returned.
  ghost predicate ProbeStep(p: Plan, s: System, u: string, failed: bool, s': System) {
    && u in p.site.uplinks && u in s.history && u in s.prober && u in p.thresholds && u !in s.inFlight
    && var snap := Observe(s.prober[u], failed, p.thresholds[u]);
    s' == s.(history := s.history[u := s.history[u] + [failed]],
             prober := s.prober[u := snap],
             inFlight := if snap.status == s.prober[u].status then s.inFlight
                         else s.inFlight[u := Transition(s.prober[u].status, snap.status)])
  }

  ghost predicate DeliverStep(p: Plan, s: System, u: string, attempts: seq<Attempt>, ok: bool, s': System) {
    && u in s.inFlight
    && var status := s.inFlight[u].after;
    && Handled(p.site, s.control, u, status, attempts, s'.control, ok)
    && s' == s.(inFlight := s.inFlight - {u},
                delivered := s.delivered[u := status],
                refused := if status != Down && status != Healthy then s.refused
                           else if ok then s.refused - {u}
                           else s.refused + {u},
                control := s'.control)
  }

  ghost predicate Next(p: Plan, s: System, step: Step, s': System) {
    match step
    case Probe(u, failed) => ProbeStep(p, s, u, failed, s')
    case Deliver(u, attempts, ok) => DeliverStep(p, s, u, attempts, ok, s')
  }

  ghost predicate IsRun(p: Plan, states: seq<System>, steps: seq<Step>) {
    && WellFormed(p)
    && |states| == |steps| + 1
    && Initial(p, states[0])
    && forall i :: 0 <= i < |steps| ==> StepAt(p, states, steps, i)
  }

  ghost predicate StepAt(p: Plan, states: seq<System>, steps: seq<Step>, i: nat)
    requires i < |steps| && |states| == |steps| + 1
  {
    Next(p, states[i], steps[i], states[i + 1])
  }

  /* ---------- What every reachable state satisfies ---------- */

  ghost predicate KeysAgree(p: Plan, s: System) {
    && s.history.Keys == s.prober.Keys == s.delivered.Keys == p.site.uplinks.Keys
    && s.inFlight.Keys <= p.site.uplinks.Keys
  }

  // Probe history, prober status, callback in flight and delivered status of one uplink fit together.
  ghost predicate UplinkConsistent(p: Plan, s: System, u: string)
    requires WellFormed(p) && KeysAgree(p, s) && u in p.site.uplinks
  {
    && s.prober[u] == Fold(s.history[u], p.thresholds[u])
    && (if u in s.inFlight
        then s.inFlight[u] == Transition(s.delivered[u], s.prober[u].status) && Legal(s.inFlight[u])
        else s.delivered[u] == s.prober[u].status)
    && ((IsActive(s.control.active, u) <==> s.delivered[u] != Down) <==> u !in s.refused)
  }

  ghost predicate Invariant(p: Plan, s: System)
    requires WellFormed(p)
  {
    && KeysAgree(p, s)
    && (forall u :: u in p.site.uplinks ==> UplinkConsistent(p, s, u))
    && Tracks(p.site, s.control)
    && (DistinctUplinkDevices(p.site) ==> PolicyFollows(p.site, s.control))
  }

  lemma ProbeKeepsUplink(p: Plan, s: System, u: string, failed: bool, s': System)
    requires WellFormed(p) && KeysAgree(p, s) && ProbeStep(p, s, u, failed, s')
    requires UplinkConsistent(p, s, u)
    ensures KeysAgree(p, s') && UplinkConsistent(p, s', u)
  {
    var h, t := s.history[u], p.thresholds[u];
    assert (h + [failed])[..|h|] == h;
    FoldMeaning(h, t);
    ObserveIsLegal(s.prober[u], failed, t);
  }

  lemma ProbeKeepsOthers(p: Plan, s: System, u: string, failed: bool, s': System, v: string)
    requires WellFormed(p) && KeysAgree(p, s) && ProbeStep(p, s, u, failed, s')
    requires v != u && v in p.site.uplinks && UplinkConsistent(p, s, v)
    ensures KeysAgree(p, s') && UplinkConsistent(p, s', v)
  {
  }

  lemma ProbeKeepsInvariant(p: Plan, s: System, u: string, failed: bool, s': System)
    requires WellFormed(p) && Invariant(p, s) && ProbeStep(p, s, u, failed, s')
    ensures Invariant(p, s')
  {
    ProbeKeepsUplink(p, s, u, failed, s');
    forall v | v in p.site.uplinks && v != u
      ensures UplinkConsistent(p, s', v)
    {
      ProbeKeepsOthers(p, s, u, failed, s', v);
    }
  }

  lemma DeliverKeepsUplinks(p: Plan, s: System, u: string, attempts: seq<Attempt>, ok: bool, s': System, v: string)
    requires WellFormed(p) && KeysAgree(p, s) && Tracks(p.site, s.control)
    requires DeliverStep(p, s, u, attempts, ok, s')
    requires u in p.site.uplinks && UplinkConsistent(p, s, u)
    requires v in p.site.uplinks && UplinkConsistent(p, s, v)
    ensures KeysAgree(p, s') && UplinkConsistent(p, s', v)
  {
    HandledKeepsTrack(p.site, s.control, u, s.inFlight[u].after, attempts, s'.control, ok);
  }

  lemma DeliverKeepsInvariant(p: Plan, s: System, u: string, attempts: seq<Attempt>, ok: bool, s': System)
    requires WellFormed(p) && Invariant(p, s) && DeliverStep(p, s, u, attempts, ok, s')
    ensures Invariant(p, s')
  {
    hide UplinkConsistent, Handled, PolicyFollows, Tracks;
    var status := s.inFlight[u].after;
    assert KeysAgree(p, s');
    forall v | v in p.site.uplinks
      ensures UplinkConsistent(p, s', v)
    {
      DeliverKeepsUplinks(p, s, u, attempts, ok, s', v);
    }
    HandledKeepsTrack(p.site, s.control, u, status, attempts, s'.control, ok);
    if DistinctUplinkDevices(p.site) {
      HandledKeepsPolicy(p.site, s.control, u, status, attempts, s'.control, ok);
    }
  }

  lemma InitialInvariant(p: Plan, s: System)
    requires WellFormed(p) && Initial(p, s)
    ensures Invariant(p, s)
  {
  }

  lemma NextKeepsInvariant(p: Plan, s: System, step: Step, s': System)
    requires WellFormed(p) && Invariant(p, s) && Next(p, s, step, s')
    ensures Invariant(p, s')
  {
    match step
    case Probe(u, failed) => ProbeKeepsInvariant(p, s, u, failed, s');
    case Deliver(u, attempts, ok) => DeliverKeepsInvariant(p, s, u, attempts, ok, s');
  }

  lemma {:induction false} Reachable(p: Plan, states: seq<System>, steps: seq<Step>, k: nat)
    requires IsRun(p, states, steps) && k < |states|
    ensures Invariant(p, states[k])
  {
    hide Invariant, Initial, Next, NhKey;
    if k == 0 {
      InitialInvariant(p, states[0]);
    } else {
      Reachable(p, states, steps, k - 1);
      assert StepAt(p, states, steps, k - 1);
      NextKeepsInvariant(p, states[k - 1], steps[k - 1], states[k]);
    }
  }

  /* ---------- Main results ---------- */

  // Step i delivered a callback whose command on the route FRR accepted.
  ghost predicate AcceptedOn(steps: seq<Step>, i: nat, key: string)
    requires i < |steps|
  {
    steps[i].Deliver? && AcceptedCommand(steps[i].attempts, key)
  }

  ghost predicate AcceptedBefore(steps: seq<Step>, k: nat, key: string)
    requires k <= |steps|
  {
    exists i :: 0 <= i < k && AcceptedOn(steps, i, key)
  }

  // FRR and the manager's memory agree on a route exactly when they agreed on it at the start or FRR has accepted a
  // command on it since. Until then FRR's entry is what it was at the start.
  lemma {:induction false} FRRFollowsMemory(p: Plan, states: seq<System>, steps: seq<Step>, k: nat, key: string)
    requires IsRun(p, states, steps) && k < |states|
    ensures Agree(states[k].control, key) <==> Agree(states[0].control, key) || AcceptedBefore(steps, k, key)
    ensures !AcceptedBefore(steps, k, key) ==> (key in states[k].control.frr <==> key in states[0].control.frr)
  {
    hide Initial, Next, StepAt, NhKey;
    if k > 0 {
      FRRFollowsMemory(p, states, steps, k - 1, key);
      AgreementStep(p, states, steps, k - 1, key);
      if AcceptedOn(steps, k - 1, key) {
        assert AcceptedBefore(steps, k, key);
      } else if i :| 0 <= i < k && AcceptedOn(steps, i, key) {
        assert AcceptedBefore(steps, k - 1, key);
      }
    }
  }

  lemma AgreementStep(p: Plan, states: seq<System>, steps: seq<Step>, i: nat, key: string)
    requires IsRun(p, states, steps) && i < |steps|
    ensures Agree(states[i + 1].control, key) <==> Agree(states[i].control, key) || AcceptedOn(steps, i, key)
    ensures !AcceptedOn(steps, i, key) ==> (key in states[i + 1].control.frr <==> key in states[i].control.frr)
  {
    Reachable(p, states, steps, i);
    assert StepAt(p, states, steps, i);
    var s, s' := states[i], states[i + 1];
    if steps[i].Deliver? {
      HandledKeepsAgreement(p.site, s.control, steps[i].uplink, s.inFlight[steps[i].uplink].after,
                            steps[i].attempts, s'.control, steps[i].ok, key);
    }
  }

  // In every reachable state, with any commands refused, the manager's memory is exactly the keys of the active
  // uplinks, and FRR's table is that set exactly when each route agreed at the start or had a command accepted since.
  lemma RoutesAreActiveUplinks(p: Plan, states: seq<System>, steps: seq<Step>, k: nat)
    requires IsRun(p, states, steps) && k < |states|
    ensures var c := states[k].control;
            && c.installed == Wanted(p.site, c.active)
            && (c.frr == c.installed <==>
                  forall key :: Agree(states[0].control, key) || AcceptedBefore(steps, k, key))
            && (Synced(p.site, states[0].control) ==> Synced(p.site, c))
  {
    Reachable(p, states, steps, k);
    forall key
      ensures Agree(states[k].control, key) <==> Agree(states[0].control, key) || AcceptedBefore(steps, k, key)
    {
      FRRFollowsMemory(p, states, steps, k, key);
    }
    AgreeEverywhere(states[k].control);
    AgreeEverywhere(states[0].control);
  }

  lemma AgreeEverywhere(c: Control)
    ensures c.frr == c.installed <==> forall key :: Agree(c, key)
  {
    if forall key :: Agree(c, key) {
      assert forall key :: key in c.frr <==> Agree(c, key) && key in c.installed;
    } else {
      var key :| !Agree(c, key);
    }
  }

  // A route leaves FRR only by its own uplink's accepted Down, and enters it only by its accepted Healthy.
  lemma RouteChangesByOwnDelivery(p: Plan, states: seq<System>, steps: seq<Step>, i: nat, u: string)
    requires IsRun(p, states, steps) && i < |steps| && u in p.site.uplinks && DistinctUplinkDevices(p.site)
    requires KeyOf(p.site, u) in states[i].control.frr <==> KeyOf(p.site, u) !in states[i + 1].control.frr
    ensures steps[i].Deliver? && steps[i].uplink == u && steps[i].ok && u in states[i].inFlight
    ensures states[i].inFlight[u].after == if KeyOf(p.site, u) in states[i].control.frr then Down else Healthy
  {
    var key := KeyOf(p.site, u);
    AgreementStep(p, states, steps, i, key);
    Reachable(p, states, steps, i);
    assert StepAt(p, states, steps, i);
    var s, s', v := states[i], states[i + 1], steps[i].uplink;
    HandledKeepsTrack(p.site, s.control, v, s.inFlight[v].after, steps[i].attempts, s'.control, steps[i].ok);
    CommandIsSwitch(p.site, s.control, v, s.inFlight[v].after, steps[i].attempts, s'.control, steps[i].ok, u);
    KeyInstalled(p.site, s.control.active, u);
    KeyInstalled(p.site, s'.control.active, u);
  }

  // Every delivered event issues at most one command.
  lemma OneCommandPerEvent(p: Plan, states: seq<System>, steps: seq<Step>, k: nat)
    requires IsRun(p, states, steps) && k < |steps| && steps[k].Deliver?
    ensures |steps[k].attempts| <= 1
    ensures states[k].control.frr != states[k + 1].control.frr ==> |steps[k].attempts| == 1 && steps[k].ok
  {
    Reachable(p, states, steps, k);
    assert StepAt(p, states, steps, k);
    var s, s' := states[k], states[k + 1];
    HandledKeepsTrack(p.site, s.control, steps[k].uplink, s.inFlight[steps[k].uplink].after,
                     steps[k].attempts, s'.control, steps[k].ok);
  }

  // For an uplink without a callback in flight, "its route is absent exactly when its last probes, as many as
  // its threshold, all failed" holds if and only if its latest Down or Healthy callback was refused exactly when FRR
  // and the manager disagree on the route. Where they agreed at the start, it holds if and only if that callback was
  // not refused.
  lemma RouteFollowsProbes(p: Plan, states: seq<System>, steps: seq<Step>, k: nat, u: string)
    requires IsRun(p, states, steps) && k < |states|
    requires DistinctUplinkDevices(p.site) && u in p.site.uplinks && u !in states[k].inFlight
    ensures KeysAgree(p, states[k])
    ensures var s, key := states[k], KeyOf(p.site, u);
            && ((key !in s.control.frr <==> LastAllFailed(s.history[u], p.thresholds[u]))
                <==> (u in s.refused <==> !Agree(states[0].control, key) && !AcceptedBefore(steps, k, key)))
            && (Agree(states[0].control, key) ==>
                  ((key !in s.control.frr <==> LastAllFailed(s.history[u], p.thresholds[u])) <==> u !in s.refused))
  {
    Reachable(p, states, steps, k);
    FRRFollowsMemory(p, states, steps, k, KeyOf(p.site, u));
    var s := states[k];
    assert UplinkConsistent(p, s, u);
    KeyInstalled(p.site, s.control.active, u);
    DownMeansLastAllFailed(s.history[u], p.thresholds[u]);
  }

  // Which uplinks are refused: those whose latest Down or Healthy delivery failed.
  lemma {:induction false} RefusedMeans(p: Plan, states: seq<System>, steps: seq<Step>, k: nat, u: string)
    requires IsRun(p, states, steps) && k < |states|
    ensures u in states[k].refused <==>
              exists i :: 0 <= i < k && FailedDelivery(states, steps, i, u)
                          && forall j :: i < j < k ==> !ActedOn(states, steps, j, u)
  {
    hide Handled, Observe;
    if k > 0 {
      hide Initial;
      RefusedMeans(p, states, steps, k - 1, u);
      assert StepAt(p, states, steps, k - 1);
      assert ActedOn(states, steps, k - 1, u) ==>
          (u in states[k].refused <==> FailedDelivery(states, steps, k - 1, u));
      assert !ActedOn(states, steps, k - 1, u) ==> (u in states[k].refused <==> u in states[k - 1].refused);
      hide Next, StepAt, IsRun;
      if !ActedOn(states, steps, k - 1, u) && u in states[k].refused {
        var i :| 0 <= i < k - 1 && FailedDelivery(states, steps, i, u)
                 && forall j :: i < j < k - 1 ==> !ActedOn(states, steps, j, u);
        assert forall j :: i < j < k ==> !ActedOn(states, steps, j, u);
      }
    }
  }

  // Step i delivered Down or Healthy to u.
  ghost predicate ActedOn(states: seq<System>, steps: seq<Step>, i: int, u: string) {
    && 0 <= i < |steps| && i < |states|
    && steps[i].Deliver? && steps[i].uplink == u
    && u in states[i].inFlight && states[i].inFlight[u].after in {Down, Healthy}
  }

  ghost predicate FailedDelivery(states: seq<System>, steps: seq<Step>, i: int, u: string) {
    ActedOn(states, steps, i, u) && !steps[i].ok
  }

  ghost predicate NoneRefused(steps: seq<Step>) {
    forall i :: 0 <= i < |steps| && steps[i].Deliver? ==> steps[i].ok
  }

  // When vtysh accepts everything: the installed routes are those of the uplinks not reported Down, and they vanish
  // only when every uplink has been reported Down. FRR holds the same routes if it did at the start.
  lemma FailureFreeRoutes(p: Plan, states: seq<System>, steps: seq<Step>, k: nat)
    requires IsRun(p, states, steps) && k < |states| && NoneRefused(steps)
    ensures KeysAgree(p, states[k])
    ensures var s := states[k];
            && s.control.installed == (set u | u in p.site.uplinks && s.delivered[u] != Down :: KeyOf(p.site, u))
            && (s.control.installed == {} ==> forall u :: u in p.site.uplinks ==> s.delivered[u] == Down)
            && (Synced(p.site, states[0].control) ==> s.control.frr == s.control.installed)
  {
    Reachable(p, states, steps, k);
    NothingRefused(p, states, steps, k);
    RoutesAreActiveUplinks(p, states, steps, k);
    var s := states[k];
    assert forall u :: u in p.site.uplinks ==> UplinkConsistent(p, s, u);
    forall u | u in p.site.uplinks && s.delivered[u] != Down
      ensures KeyOf(p.site, u) in s.control.installed
    {
    }
  }

  lemma {:induction false} NothingRefused(p: Plan, states: seq<System>, steps: seq<Step>, k: nat)
    requires IsRun(p, states, steps) && k < |states| && NoneRefused(steps)
    ensures states[k].refused == {}
  {
    if k > 0 {
      NothingRefused(p, states, steps, k - 1);
      assert StepAt(p, states, steps, k - 1);
    }
  }

  // u's latest Down or Healthy callback was refused, it is Down, and nothing is in flight for it.
  ghost predicate StuckDown(s: System, u: string) {
    u !in s.inFlight && u in s.refused && u in s.prober && s.prober[u].status == Down
  }

  lemma FailingStaysDown(p: Plan, s: System, u: string)
    requires WellFormed(p) && Invariant(p, s) && u in p.site.uplinks && s.prober[u].status == Down
    ensures Observe(s.prober[u], true, p.thresholds[u]).status == Down
  {
    hide NhKey, Tracks, PolicyFollows;
    assert UplinkConsistent(p, s, u);
    FoldMeaning(s.history[u], p.thresholds[u]);
  }

  lemma StuckDownStays(p: Plan, s: System, step: Step, s': System, u: string)
    requires WellFormed(p) && Invariant(p, s) && Next(p, s, step, s') && u in p.site.uplinks
    requires StuckDown(s, u) && step != Probe(u, false)
    ensures StuckDown(s', u)
  {
    hide Invariant, Handled, Observe;
    FailingStaysDown(p, s, u);
  }

  lemma StuckDownAt(p: Plan, states: seq<System>, steps: seq<Step>, i: nat, u: string)
    requires IsRun(p, states, steps) && i < |steps| && u in p.site.uplinks
    requires StuckDown(states[i], u) && steps[i] != Probe(u, false)
    ensures StuckDown(states[i + 1], u)
  {
    Reachable(p, states, steps, i);
    assert StepAt(p, states, steps, i);
    StuckDownStays(p, states[i], steps[i], states[i + 1], u);
  }

  lemma StuckDownKeepsRoute(p: Plan, states: seq<System>, steps: seq<Step>, i: nat, u: string)
    requires IsRun(p, states, steps) && i < |states| && u in p.site.uplinks && StuckDown(states[i], u)
    ensures KeyOf(p.site, u) in states[i].control.installed
  {
    Reachable(p, states, steps, i);
    assert UplinkConsistent(p, states[i], u);
  }

  // No command touches a route that stays wanted.
  lemma StuckRouteUntouched(p: Plan, states: seq<System>, steps: seq<Step>, i: nat, u: string)
    requires IsRun(p, states, steps) && i < |steps| && u in p.site.uplinks
    requires StuckDown(states[i], u) && StuckDown(states[i + 1], u)
    ensures KeyOf(p.site, u) in states[i].control.frr <==> KeyOf(p.site, u) in states[i + 1].control.frr
  {
    hide NhKey, Invariant, Initial, Tracks, Handled;
    var key := KeyOf(p.site, u);
    StuckDownKeepsRoute(p, states, steps, i, u);
    StuckDownKeepsRoute(p, states, steps, i + 1, u);
    AgreementStep(p, states, steps, i, key);
    AgreeAt(p, states, steps, i);
    assert StepAt(p, states, steps, i);
    if steps[i].Deliver? {
      var s, v := states[i], steps[i].uplink;
      HandledKeepsTrack(
        p.site, s.control, v, s.inFlight[v].after, steps[i].attempts, states[i + 1].control, steps[i].ok);
    }
  }

  // A refused deactivation is never retried while the uplink stays dead: from the moment it is Down with its
  // callback done, no later failing probe of it, and nothing that happens to the others, changes its route.
  lemma {:induction false} RefusedDownIsStuck(
    p: Plan, states: seq<System>, steps: seq<Step>, k: nat, n: nat, u: string)
    requires IsRun(p, states, steps) && k <= n < |states| && u in p.site.uplinks
    requires StuckDown(states[k], u)
    requires forall i :: k <= i < n ==> steps[i] != Probe(u, false)
    ensures StuckDown(states[n], u) && KeyOf(p.site, u) in states[n].control.installed
    ensures KeyOf(p.site, u) in states[n].control.frr <==> KeyOf(p.site, u) in states[k].control.frr
    decreases n
  {
    if n > k {
      RefusedDownIsStuck(p, states, steps, k, n - 1, u);
      StuckDownAt(p, states, steps, n - 1, u);
      StuckRouteUntouched(p, states, steps, n - 1, u);
    }
    StuckDownKeepsRoute(p, states, steps, n, u);
  }

  // A run that ends there: one uplink, one failing probe, one refused command.
  ghost function RefusalPlan(up: Uplink): Plan {
    Plan(Site(map[up.name := up], {}), map[up.name := 1])
  }

  ghost function RefusalStates(up: Uplink): (states: seq<System>)
    ensures |states| == 3
  {
    var u, key := up.name, NhKey(up.Hop());
    var control := Control(map[u := true], {key}, {key}, {});
    var snap := Snapshot(Down, 1, 1, 1);
    [System(map[u := []], map[u := INITIAL], map[], map[u := Unknown], {}, control),
     System(map[u := [true]], map[u := snap], map[u := Transition(Unknown, Down)], map[u := Unknown], {}, control),
     System(map[u := [true]], map[u := snap], map[], map[u := Down], {u}, control)]
  }

  ghost function RefusalSteps(up: Uplink): (steps: seq<Step>)
    ensures |steps| == 2
  {
    [Probe(up.name, true), Deliver(up.name, [Attempt(Remove(NhKey(up.Hop())), false)], false)]
  }

  lemma RefusalStarts(up: Uplink)
    ensures Initial(RefusalPlan(up), RefusalStates(up)[0])
  {
    hide NhKey;
    var p, s := RefusalPlan(up), RefusalStates(up)[0];
    assert Wanted(p.site, s.control.active) == s.control.frr by {
      assert up.name in p.site.uplinks && IsActive(s.control.active, up.name);
    }
  }

  lemma RefusalIsPossible(up: Uplink)
    ensures IsRun(RefusalPlan(up), RefusalStates(up), RefusalSteps(up))
    ensures StuckDown(RefusalStates(up)[2], up.name)
  {
    hide NhKey;
    var p, states, steps := RefusalPlan(up), RefusalStates(up), RefusalSteps(up);
    RefusalStarts(up);
    RefusedStep(p.site, states[1].control, up.name, steps[1].attempts);
    assert [] + [true] == [true];
    assert StepAt(p, states, steps, 0);
    assert states[1].inFlight - {up.name} == map[];
    assert DeliverStep(p, states[1], up.name, steps[1].attempts, false, states[2]);
    assert StepAt(p, states, steps, 1);
  }

  lemma RefusedStep(site: Site, c: Control, u: string, attempts: seq<Attempt>)
    requires u in site.uplinks && site.uplinks.Keys == {u} && c.active == map[u := true]
    requires attempts == [Attempt(Remove(KeyOf(site, u)), false)] && c.installed == {KeyOf(site, u)}
    ensures Handled(site, c, u, Down, attempts, c, false)
  {
  }

  // A run from a start at which FRR lacks the route the manager takes to be installed: the probes succeed, the
  // controller hears Healthy, finds the uplink active and issues nothing.
  ghost function RestartStates(up: Uplink): (states: seq<System>)
    ensures |states| == 3
  {
    var u, key := up.name, NhKey(up.Hop());
    var control := Control(map[u := true], {key}, {}, {});
    var snap := Snapshot(Healthy, 0, 1, 0);
    [System(map[u := []], map[u := INITIAL], map[], map[u := Unknown], {}, control),
     System(map[u := [false]], map[u := snap], map[u := Transition(Unknown, Healthy)], map[u := Unknown], {}, control),
     System(map[u := [false]], map[u := snap], map[], map[u := Healthy], {}, control)]
  }

  ghost function RestartSteps(up: Uplink): (steps: seq<Step>)
    ensures |steps| == 2
  {
    [Probe(up.name, false), Deliver(up.name, [], true)]
  }

  lemma RestartStarts(up: Uplink)
    ensures Initial(RefusalPlan(up), RestartStates(up)[0])
  {
    var p, s := RefusalPlan(up), RestartStates(up)[0];
    assert Wanted(p.site, s.control.active) == s.control.installed by {
      assert up.name in p.site.uplinks && IsActive(s.control.active, up.name);
    }
  }

  lemma RestartMissesRoute(up: Uplink)
    ensures IsRun(RefusalPlan(up), RestartStates(up), RestartSteps(up))
    ensures var s := RestartStates(up)[2];
            !LastAllFailed(s.history[up.name], 1) && s.refused == {} && s.control.frr == {}
  {
    hide NhKey;
    var p, states, steps := RefusalPlan(up), RestartStates(up), RestartSteps(up);
    RestartStarts(up);
    assert [] + [false] == [false];
    assert StepAt(p, states, steps, 0);
    assert states[1].inFlight - {up.name} == map[];
    assert DeliverStep(p, states[1], up.name, [], true, states[2]);
    assert StepAt(p, states, steps, 1);
    assert !states[2].history[up.name][0];
  }

  /* ---------- Policy rules ---------- */

  ghost predicate RevivesAt(p: Plan, states: seq<System>, steps: seq<Step>, i: nat)
    requires i < |steps| && i < |states|
  {
    && steps[i].Deliver? && steps[i].uplink in states[i].inFlight
    && RevivesShared(p.site, states[i].control, steps[i].uplink, states[i].inFlight[steps[i].uplink].after, steps[i].ok)
  }

  // Up to any point of a run the rules present are always those of devices with no inactive uplink exactly when no
  // delivery so far has brought back an uplink sharing a rule's device with an inactive one.
  lemma PolicyFollowsExactlyWhen(p: Plan, states: seq<System>, steps: seq<Step>, n: nat)
    requires IsRun(p, states, steps) && n < |states|
    ensures (forall k :: 0 <= k <= n ==> PolicyFollows(p.site, states[k].control))
       <==> (forall i :: 0 <= i < n ==> !RevivesAt(p, states, steps, i))
  {
    hide PolicyFollows, RevivesAt;
    if forall i :: 0 <= i < n ==> !RevivesAt(p, states, steps, i) {
      forall k | 0 <= k <= n
        ensures PolicyFollows(p.site, states[k].control)
      {
        UnrevivedPolicy(p, states, steps, k);
      }
    } else {
      var i :| 0 <= i < n && RevivesAt(p, states, steps, i);
      if PolicyFollows(p.site, states[i].control) {
        PolicyStep(p, states, steps, i);
      }
    }
  }

  lemma {:induction false} UnrevivedPolicy(p: Plan, states: seq<System>, steps: seq<Step>, k: nat)
    requires IsRun(p, states, steps) && k < |states|
    requires forall i :: 0 <= i < k ==> !RevivesAt(p, states, steps, i)
    ensures PolicyFollows(p.site, states[k].control)
  {
    hide PolicyFollows, RevivesAt;
    if k > 0 {
      UnrevivedPolicy(p, states, steps, k - 1);
      PolicyStep(p, states, steps, k - 1);
    }
  }

  lemma PolicyStep(p: Plan, states: seq<System>, steps: seq<Step>, i: nat)
    requires IsRun(p, states, steps) && i < |steps| && PolicyFollows(p.site, states[i].control)
    ensures PolicyFollows(p.site, states[i + 1].control) <==> !RevivesAt(p, states, steps, i)
  {
    assert StepAt(p, states, steps, i);
    if steps[i].Deliver? {
      var s, u := states[i], steps[i].uplink;
      PolicyKeptExactlyWhen(
        p.site, s.control, u, s.inFlight[u].after, steps[i].attempts, states[i + 1].control, steps[i].ok);
    }
  }

  // With distinct uplink devices, in every state of every run, whatever is refused, a rule is present exactly when
  // its device is not that of an inactive uplink.
  lemma PolicyFollowsActiveUplinks(p: Plan, states: seq<System>, steps: seq<Step>, k: nat, r: PolicyRule)
    requires IsRun(p, states, steps) && k < |states| && DistinctUplinkDevices(p.site)
    ensures var c := states[k].control;
            r in c.policy <==>
              r in p.site.rules
              && forall u :: u in p.site.uplinks && !IsActive(c.active, u) ==> p.site.uplinks[u].device != r.device
  {
    Reachable(p, states, steps, k);
  }

  /* ---------- Confluence ---------- */

  // What one uplink's goroutine and its callbacks do, seen alone.
  datatype LocalEvent = Probed(failed: bool) | Heard(ok: bool)

  function EventOf(step: Step): LocalEvent {
    match step
    case Probe(_, failed) => Probed(failed)
    case Deliver(_, _, ok) => Heard(ok)
  }

  function Project(steps: seq<Step>, u: string): seq<LocalEvent> {
    if steps == [] then []
    else
      var last := steps[|steps| - 1];
      Project(steps[..|steps| - 1], u) + if last.uplink == u then [EventOf(last)] else []
  }

  datatype Local = Local(snap: Snapshot, inFlight: Option<Transition>, delivered: Status, active: bool)

  function LocalStep(l: Local, e: LocalEvent, threshold: nat): Local {
    match e
    case Probed(failed) =>
      var snap := Observe(l.snap, failed, threshold);
      l.(snap := snap,
         inFlight := if snap.status == l.snap.status then l.inFlight else Some(Transition(l.snap.status, snap.status)))
    case Heard(ok) =>
      if l.inFlight == None then l
      else
        var status := l.inFlight.value.after;
        Local(l.snap, None, status,
              if ok && status == Down then false else if ok && status == Healthy then true else l.active)
  }

  function LocalRun(events: seq<LocalEvent>, threshold: nat): Local {
    if events == [] then Local(INITIAL, None, Unknown, true)
    else LocalStep(LocalRun(events[..|events| - 1], threshold), events[|events| - 1], threshold)
  }

  function LocalView(s: System, u: string): Local
    requires u in s.prober && u in s.delivered
  {
    Local(s.prober[u], if u in s.inFlight then Some(s.inFlight[u]) else None, s.delivered[u],
          IsActive(s.control.active, u))
  }

  lemma LocalProbe(p: Plan, s: System, v: string, failed: bool, s': System, u: string)
    requires WellFormed(p) && KeysAgree(p, s) && ProbeStep(p, s, v, failed, s') && u in p.site.uplinks
    ensures KeysAgree(p, s')
    ensures LocalView(s', u) == if v == u then LocalStep(LocalView(s, u), Probed(failed), p.thresholds[u])
                                else LocalView(s, u)
  {
    hide NhKey, Handled, Tracks, Wanted;
  }

  lemma LocalDeliver(p: Plan, s: System, v: string, attempts: seq<Attempt>, ok: bool, s': System, u: string)
    requires WellFormed(p) && KeysAgree(p, s) && Tracks(p.site, s.control)
    requires DeliverStep(p, s, v, attempts, ok, s') && u in p.site.uplinks
    ensures KeysAgree(p, s')
    ensures LocalView(s', u) == if v == u then LocalStep(LocalView(s, u), Heard(ok), p.thresholds[u])
                                else LocalView(s, u)
  {
    hide NhKey, Handled, Tracks, Wanted;
    HandledKeepsTrack(p.site, s.control, v, s.inFlight[v].after, attempts, s'.control, ok);
  }

  lemma LocalNext(p: Plan, s: System, step: Step, s': System, u: string)
    requires WellFormed(p) && KeysAgree(p, s) && Tracks(p.site, s.control)
    requires Next(p, s, step, s') && u in p.site.uplinks
    ensures KeysAgree(p, s')
    ensures LocalView(s', u) == if step.uplink == u then LocalStep(LocalView(s, u), EventOf(step), p.thresholds[u])
                                else LocalView(s, u)
  {
    match step
    case Probe(v, failed) => LocalProbe(p, s, v, failed, s', u);
    case Deliver(v, attempts, ok) => LocalDeliver(p, s, v, attempts, ok, s', u);
  }

  lemma AgreeAt(p: Plan, states: seq<System>, steps: seq<Step>, k: nat)
    requires IsRun(p, states, steps) && k < |states|
    ensures KeysAgree(p, states[k]) && Tracks(p.site, states[k].control)
  {
    Reachable(p, states, steps, k);
  }

  lemma LocalAt(p: Plan, states: seq<System>, steps: seq<Step>, k: nat, u: string)
    requires IsRun(p, states, steps) && k < |steps| && u in p.site.uplinks
    ensures KeysAgree(p, states[k]) && KeysAgree(p, states[k + 1])
    ensures LocalView(states[k + 1], u)
         == if steps[k].uplink == u then LocalStep(LocalView(states[k], u), EventOf(steps[k]), p.thresholds[u])
            else LocalView(states[k], u)
  {
    AgreeAt(p, states, steps, k);
    assert StepAt(p, states, steps, k);
    LocalNext(p, states[k], steps[k], states[k + 1], u);
  }

  lemma LocalRunSnoc(events: seq<LocalEvent>, e: LocalEvent, threshold: nat)
    ensures LocalRun(events + [e], threshold) == LocalStep(LocalRun(events, threshold), e, threshold)
  {
    assert (events + [e])[..|events|] == events;
  }

  lemma ProjectSnoc(steps: seq<Step>, k: nat, u: string)
    requires k < |steps|
    ensures Project(steps[..k + 1], u)
         == if steps[k].uplink == u then Project(steps[..k], u) + [EventOf(steps[k])] else Project(steps[..k], u)
  {
    assert steps[..k + 1][..k] == steps[..k];
  }

  lemma LocalStart(p: Plan, states: seq<System>, steps: seq<Step>, u: string)
    requires IsRun(p, states, steps) && u in p.site.uplinks
    ensures u in states[0].prober && u in states[0].delivered
    ensures LocalView(states[0], u) == LocalRun([], p.thresholds[u])
  {
  }

  lemma {:induction false} LocalRunTracks(p: Plan, states: seq<System>, steps: seq<Step>, k: nat, u: string)
    requires IsRun(p, states, steps) && k < |states| && u in p.site.uplinks
    ensures u in states[k].prober && u in states[k].delivered
    ensures LocalView(states[k], u) == LocalRun(Project(steps[..k], u), p.thresholds[u])
  {
    hide LocalView, LocalStep, Initial, Next, StepAt, NhKey;
    if k == 0 {
      LocalStart(p, states, steps, u);
      assert steps[..0] == [];
    } else {
      LocalRunTracks(p, states, steps, k - 1, u);
      LocalAt(p, states, steps, k - 1, u);
      ProjectSnoc(steps, k - 1, u);
      LocalRunSnoc(Project(steps[..k - 1], u), EventOf(steps[k - 1]), p.thresholds[u]);
    }
  }

  lemma LocalFinal(p: Plan, states: seq<System>, steps: seq<Step>, u: string)
    requires IsRun(p, states, steps) && u in p.site.uplinks
    ensures var s := states[|steps|];
            && u in s.prober && u in s.delivered
            && LocalView(s, u) == LocalRun(Project(steps, u), p.thresholds[u])
  {
    LocalRunTracks(p, states, steps, |steps|, u);
    assert steps[..|steps|] == steps;
  }

  lemma SameActiveSameRoutes(p: Plan, s: System, s': System)
    requires WellFormed(p) && Invariant(p, s) && Invariant(p, s')
    requires forall u :: u in p.site.uplinks ==> (IsActive(s.control.active, u) <==> IsActive(s'.control.active, u))
    ensures s.control.installed == s'.control.installed
    ensures DistinctUplinkDevices(p.site) ==> s.control.policy == s'.control.policy
  {
  }

  // The event makes the controller switch the uplink.
  predicate Flips(l: Local, e: LocalEvent) {
    && e == Heard(true) && l.inFlight.Some?
    && ((l.inFlight.value.after == Down && l.active) || (l.inFlight.value.after == Healthy && !l.active))
  }

  predicate Touched(events: seq<LocalEvent>, threshold: nat) {
    events != []
    && (Touched(events[..|events| - 1], threshold)
        || Flips(LocalRun(events[..|events| - 1], threshold), events[|events| - 1]))
  }

  // FRR accepts a command on an uplink's route exactly when that uplink is switched.
  lemma AcceptedIsFlip(p: Plan, states: seq<System>, steps: seq<Step>, i: nat, u: string)
    requires IsRun(p, states, steps) && i < |steps| && u in p.site.uplinks && DistinctUplinkDevices(p.site)
    ensures KeysAgree(p, states[i])
    ensures AcceptedOn(steps, i, KeyOf(p.site, u)) <==>
              steps[i].uplink == u && Flips(LocalView(states[i], u), EventOf(steps[i]))
  {
    hide NhKey, Invariant, Initial, Tracks, Handled;
    AgreeAt(p, states, steps, i);
    assert StepAt(p, states, steps, i);
    if steps[i].Deliver? {
      var s, v := states[i], steps[i].uplink;
      CommandIsSwitch(
        p.site, s.control, v, s.inFlight[v].after, steps[i].attempts, states[i + 1].control, steps[i].ok, u);
    }
  }

  lemma AcceptedSnoc(steps: seq<Step>, k: nat, key: string)
    requires k < |steps|
    ensures AcceptedBefore(steps, k + 1, key) <==> AcceptedBefore(steps, k, key) || AcceptedOn(steps, k, key)
  {
  }

  lemma TouchedSnoc(events: seq<LocalEvent>, e: LocalEvent, threshold: nat)
    ensures Touched(events + [e], threshold) <==> Touched(events, threshold) || Flips(LocalRun(events, threshold), e)
  {
    assert (events + [e])[..|events|] == events;
  }

  lemma TouchedStep(p: Plan, states: seq<System>, steps: seq<Step>, k: nat, u: string)
    requires IsRun(p, states, steps) && k < |steps| && u in p.site.uplinks && DistinctUplinkDevices(p.site)
    ensures AcceptedOn(steps, k, KeyOf(p.site, u)) <==>
              steps[k].uplink == u && Flips(LocalRun(Project(steps[..k], u), p.thresholds[u]), EventOf(steps[k]))
  {
    AcceptedIsFlip(p, states, steps, k, u);
    LocalRunTracks(p, states, steps, k, u);
  }

  lemma {:induction false} TouchedTracks(p: Plan, states: seq<System>, steps: seq<Step>, k: nat, u: string)
    requires IsRun(p, states, steps) && k <= |steps| && u in p.site.uplinks && DistinctUplinkDevices(p.site)
    ensures AcceptedBefore(steps, k, KeyOf(p.site, u)) <==> Touched(Project(steps[..k], u), p.thresholds[u])
  {
    if k > 0 {
      TouchedTracks(p, states, steps, k - 1, u);
      TouchedStep(p, states, steps, k - 1, u);
      AcceptedSnoc(steps, k - 1, KeyOf(p.site, u));
      ProjectSnoc(steps, k - 1, u);
      TouchedSnoc(Project(steps[..k - 1], u), EventOf(steps[k - 1]), p.thresholds[u]);
    }
  }

  lemma TouchedFinal(p: Plan, states: seq<System>, steps: seq<Step>, u: string)
    requires IsRun(p, states, steps) && u in p.site.uplinks && DistinctUplinkDevices(p.site)
    ensures AcceptedBefore(steps, |steps|, KeyOf(p.site, u)) <==> Touched(Project(steps, u), p.thresholds[u])
  {
    TouchedTracks(p, states, steps, |steps|, u);
    assert steps[..|steps|] == steps;
  }

  // Only uplinks' routes are ever touched.
  lemma AcceptedIsUplink(p: Plan, states: seq<System>, steps: seq<Step>, k: nat, key: string)
    returns (u: string)
    requires IsRun(p, states, steps) && k <= |steps| && AcceptedBefore(steps, k, key)
    ensures u in p.site.uplinks && KeyOf(p.site, u) == key
  {
    var i :| 0 <= i < k && AcceptedOn(steps, i, key);
    Reachable(p, states, steps, i);
    assert StepAt(p, states, steps, i);
    var s, v := states[i], steps[i].uplink;
    HandledKeepsTrack(p.site, s.control, v, s.inFlight[v].after, steps[i].attempts, states[i + 1].control, steps[i].ok);
    AcceptedIsFirst(steps[i].attempts, key);
    u := v;
  }

  // Two runs in which every uplink goes through the same events, however interleaved, end with the same active
  // uplinks, the same memory and the same policy rules; and with the same FRR table if they began with the same one
  // and the uplinks' devices are distinct, or if both began with FRR and the memory in agreement.
  lemma Confluence(
    p: Plan, states: seq<System>, steps: seq<Step>, states': seq<System>, steps': seq<Step>)
    requires IsRun(p, states, steps) && IsRun(p, states', steps')
    requires forall u :: u in p.site.uplinks ==> Project(steps, u) == Project(steps', u)
    ensures var c, c' := states[|steps|].control, states'[|steps'|].control;
            && (forall u :: u in p.site.uplinks ==> (IsActive(c.active, u) <==> IsActive(c'.active, u)))
            && c.installed == c'.installed
            && (DistinctUplinkDevices(p.site) ==> c.policy == c'.policy)
            && (Synced(p.site, states[0].control) && Synced(p.site, states'[0].control) ==> c.frr == c'.frr)
            && (DistinctUplinkDevices(p.site) && states[0].control.frr == states'[0].control.frr ==> c.frr == c'.frr)
  {
    hide Invariant, Initial, Next, NhKey, LocalRun, Project;
    Reachable(p, states, steps, |steps|);
    Reachable(p, states', steps', |steps'|);
    forall u | u in p.site.uplinks
      ensures IsActive(states[|steps|].control.active, u) <==> IsActive(states'[|steps'|].control.active, u)
    {
      LocalFinal(p, states, steps, u);
      LocalFinal(p, states', steps', u);
    }
    SameActiveSameRoutes(p, states[|steps|], states'[|steps'|]);
    RoutesAreActiveUplinks(p, states, steps, |steps|);
    RoutesAreActiveUplinks(p, states', steps', |steps'|);
    if DistinctUplinkDevices(p.site) && states[0].control.frr == states'[0].control.frr {
      forall key
        ensures key in states[|steps|].control.frr <==> key in states'[|steps'|].control.frr
      {
        SameFRREntry(p, states, steps, states', steps', key);
      }
    }
  }

  lemma SameFRREntry(
    p: Plan, states: seq<System>, steps: seq<Step>, states': seq<System>, steps': seq<Step>, key: string)
    requires IsRun(p, states, steps) && IsRun(p, states', steps') && DistinctUplinkDevices(p.site)
    requires forall u :: u in p.site.uplinks ==> Project(steps, u) == Project(steps', u)
    requires states[0].control.frr == states'[0].control.frr
    requires states[|steps|].control.installed == states'[|steps'|].control.installed
    ensures key in states[|steps|].control.frr <==> key in states'[|steps'|].control.frr
  {
    FRRFollowsMemory(p, states, steps, |steps|, key);
    FRRFollowsMemory(p, states', steps', |steps'|, key);
    if AcceptedBefore(steps, |steps|, key) {
      SameAccepted(p, states, steps, states', steps', key);
    } else if AcceptedBefore(steps', |steps'|, key) {
      SameAccepted(p, states', steps', states, steps, key);
    }
  }

  lemma SameAccepted(
    p: Plan, states: seq<System>, steps: seq<Step>, states': seq<System>, steps': seq<Step>, key: string)
    requires IsRun(p, states, steps) && IsRun(p, states', steps') && DistinctUplinkDevices(p.site)
    requires forall u :: u in p.site.uplinks ==> Project(steps, u) == Project(steps', u)
    requires AcceptedBefore(steps, |steps|, key)
    ensures AcceptedBefore(steps', |steps'|, key)
  {
    var u := AcceptedIsUplink(p, states, steps, |steps|, key);
    assert Project(steps, u) == Project(steps', u);
    TouchedFinal(p, states, steps, u);
    TouchedFinal(p, states', steps', u);
  }
}
