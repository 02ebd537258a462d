/**
 The health prober (internal/health/probe.go): one state machine per uplink, updated by every probe result.
 */
module Health {
  import opened Text

  datatype Status = Unknown | Healthy | Degraded | Down

  datatype Transition = Transition(before: Status, after: Status)

  // The counters and status of one uplink at one moment.
  datatype Snapshot = Snapshot(status: Status, fails: nat, probes: nat, failures: nat)

  const INITIAL := Snapshot(Unknown, 0, 0, 0)

  // What one probe result does to an uplink's state.
  function Observe(s: Snapshot, failed: bool, threshold: nat): Snapshot {
    if failed then
      Snapshot(if s.fails + 1 >= threshold then Down else Degraded, s.fails + 1, s.probes + 1, s.failures + 1)
    else
      Snapshot(Healthy, 0, s.probes + 1, s.failures)
  }

  function Change(before: Status, after: Status): seq<Transition> {
    if before == after then [] else [Transition(before, after)]
  }

  /* A probe history lists, oldest first, whether each probe failed. */

  function FoldFrom(s: Snapshot, history: seq<bool>, threshold: nat): Snapshot {
    if history == [] then s
    else Observe(FoldFrom(s, history[..|history| - 1], threshold), history[|history| - 1], threshold)
  }

  function Fold(history: seq<bool>, threshold: nat): Snapshot {
    FoldFrom(INITIAL, history, threshold)
  }

  // The status changes reported along the way.
  function EmittedFrom(s: Snapshot, history: seq<bool>, threshold: nat): seq<Transition> {
    if history == [] then []
    else
      var front := history[..|history| - 1];
      EmittedFrom(s, front, threshold)
      + Change(FoldFrom(s, front, threshold).status, FoldFrom(s, history, threshold).status)
  }

  // probeLoop applies defaults before its loop: a threshold below one means three.
  function EffectiveThreshold(failures: int): (t: nat)
    ensures t >= 1
    ensures failures >= 1 ==> t == failures
  {
    if failures <= 0 then 3 else failures
  }

  /* ---------- What the fold means ---------- */

  ghost predicate LastAllFailed(history: seq<bool>, n: nat) {
    n <= |history| && forall i :: |history| - n <= i < |history| ==> history[i]
  }

  function CountFailed(history: seq<bool>): nat {
    if history == [] then 0
    else CountFailed(history[..|history| - 1]) + (if history[|history| - 1] then 1 else 0)
  }

  // ConsecutiveFails is the length of the longest failing suffix, and the status is a function of it.
  lemma {:induction false} FoldMeaning(history: seq<bool>, threshold: nat)
    requires threshold >= 1
    ensures var s := Fold(history, threshold);
            && LastAllFailed(history, s.fails)
            && (s.fails < |history| ==> !history[|history| - s.fails - 1])
            && s.probes == |history| && s.failures == CountFailed(history)
            && s.fails <= s.failures <= s.probes
            && s.status == if history == [] then Unknown
                           else if s.fails == 0 then Healthy
                           else if s.fails < threshold then Degraded
                           else Down
  {
    if history != [] {
      var front := history[..|history| - 1];
      FoldMeaning(front, threshold);
      var s := Fold(history, threshold);
      if history[|history| - 1] && s.fails < |history| {
        assert history[|history| - s.fails - 1] == front[|front| - (s.fails - 1) - 1];
      }
    }
  }

  // An uplink is Down exactly when its last `threshold` probes all failed.
  lemma DownMeansLastAllFailed(history: seq<bool>, threshold: nat)
    requires threshold >= 1
    ensures Fold(history, threshold).status == Down <==> LastAllFailed(history, threshold)
  {
    FoldMeaning(history, threshold);
  }

  // Without a threshold of its own an uplink is Down exactly when its last three probes failed.
  lemma DefaultIsThree(history: seq<bool>, failures: int)
    requires failures <= 0
    ensures Fold(history, EffectiveThreshold(failures)).status == Down <==>
              |history| >= 3 && history[|history| - 1] && history[|history| - 2] && history[|history| - 3]
  {
    DownMeansLastAllFailed(history, 3);
  }

  // The legal moves: any success leads to Healthy, Down is left only for Healthy, Unknown is never entered.
  predicate Legal(t: Transition) {
    && t.before != t.after
    && t.after != Unknown
    && (t.before == Down ==> t.after == Healthy)
  }

  lemma ObserveIsLegal(s: Snapshot, failed: bool, threshold: nat)
    requires threshold >= 1 && (s.status == Down ==> s.fails >= threshold)
    ensures var s' := Observe(s, failed, threshold);
            && (s'.status == Down ==> s'.fails >= threshold)
            && s'.status != Unknown
            && (s'.status == s.status || Legal(Transition(s.status, s'.status)))
  {
  }

  // Reported transitions chain: the first starts at Unknown, each next one where the previous ended,
  // the last one ends at the current status.
  lemma {:induction false} TransitionsChain(history: seq<bool>, threshold: nat)
    requires threshold >= 1
    ensures var ts := EmittedFrom(INITIAL, history, threshold);
            && (forall i :: 0 <= i < |ts| ==> Legal(ts[i]))
            && (forall i :: 0 < i < |ts| ==> ts[i].before == ts[i - 1].after)
            && (|ts| > 0 ==> ts[0].before == Unknown)
            && Fold(history, threshold).status == if ts == [] then Unknown else ts[|ts| - 1].after
  {
    if history != [] {
      var front := history[..|history| - 1];
      TransitionsChain(front, threshold);
      FoldMeaning(front, threshold);
      ObserveIsLegal(Fold(front, threshold), history[|history| - 1], threshold);
    }
  }

  /* ---------- The prober's objects ---------- */

  class UplinkState {
    const name: string
    const target: string
    var status: Status
    var consecutiveFails: nat
    var totalProbes: nat
    var totalFailures: nat

    constructor (name: string, target: string)
      ensures this.name == name && this.target == target && View() == INITIAL
    {
      this.name, this.target := name, target;
      status, consecutiveFails, totalProbes, totalFailures := Unknown, 0, 0, 0;
    }

    function View(): Snapshot
      reads this
    {
      Snapshot(status, consecutiveFails, totalProbes, totalFailures)
    }
  }

  datatype ProbeConfig = ProbeConfig(name: string, target: string, interval: int, timeout: int, failures: int)

  // The defaults of probeLoop, in seconds for the times.
  function Effective(cfg: ProbeConfig): (e: ProbeConfig)
    ensures e.interval >= 1 && e.timeout >= 1 && e.failures == EffectiveThreshold(cfg.failures)
    ensures e.name == cfg.name && e.target == cfg.target
    ensures if cfg.interval >= 1 then e.interval == cfg.interval else e.interval == 1
    ensures if cfg.timeout >= 1 then e.timeout == cfg.timeout else e.timeout == 2
  {
    cfg.(interval := if cfg.interval <= 0 then 1 else cfg.interval,
         timeout := if cfg.timeout <= 0 then 2 else cfg.timeout,
         failures := EffectiveThreshold(cfg.failures))
  }

  function ConfigNames(configs: seq<ProbeConfig>): set<string> {
    set c | c in configs :: c.name
  }

  // The target that the last configuration of a name gives.
  ghost predicate LastTarget(configs: seq<ProbeConfig>, name: string, target: string) {
    exists k :: 0 <= k < |configs| && configs[k].name == name && configs[k].target == target
                && forall j :: k < j < |configs| ==> configs[j].name != name
  }

  lemma LastTargetSnoc(configs: seq<ProbeConfig>, c: ProbeConfig)
    ensures LastTarget(configs + [c], c.name, c.target)
    ensures forall n, t :: n != c.name && LastTarget(configs, n, t) ==> LastTarget(configs + [c], n, t)
  {
    var all := configs + [c];
    assert all[|configs|] == c;
    forall n, t | n != c.name && LastTarget(configs, n, t)
      ensures LastTarget(all, n, t)
    {
      var k :| 0 <= k < |configs| && configs[k].name == n && configs[k].target == t
               && forall j :: k < j < |configs| ==> configs[j].name != n;
      assert all[k] == configs[k];
    }
  }

  class Prober {
    var states: map<string, UplinkState>

    constructor ()
      ensures states == map[]
    {
      states := map[];
    }

    // No two uplinks share a state object.
    ghost predicate Valid()
      reads this
    {
      forall m, n :: m in states && n in states && states[m] == states[n] ==> m == n
    }

    // Start registers a fresh state for every configured uplink.
    method Start(configs: seq<ProbeConfig>)
      requires Valid()
      modifies this
      ensures Valid()
      ensures states.Keys == old(states).Keys + ConfigNames(configs)
      ensures forall c :: c in configs ==> fresh(states[c.name]) && states[c.name].View() == INITIAL
      ensures forall c :: c in configs ==> states[c.name].name == c.name
                                           && LastTarget(configs, c.name, states[c.name].target)
      ensures forall n :: n in old(states) && (forall c :: c in configs ==> c.name != n) ==>
                states[n] == old(states)[n]
    {
      hide LastTarget;
      for i := 0 to |configs|
        invariant Valid()
        invariant states.Keys == old(states).Keys + ConfigNames(configs[..i])
        invariant forall n :: n in states ==>
                    if exists c :: c in configs[..i] && c.name == n
                    then && fresh(states[n]) && states[n].View() == INITIAL && states[n].name == n
                         && LastTarget(configs[..i], n, states[n].target)
                    else n in old(states) && states[n] == old(states)[n]
        invariant forall n :: n in states ==> allocated(states[n])
      {
        assert configs[..i + 1] == configs[..i] + [configs[i]];
        LastTargetSnoc(configs[..i], configs[i]);
        var state := new UplinkState(configs[i].name, configs[i].target);
        states := states[configs[i].name := state];
      }
      assert configs[..|configs|] == configs;
    }

    // One probe: commit the result under the lock, and report a status change to be delivered after unlocking.
    method DoPing(cfg: ProbeConfig, failed: bool) returns (callback: seq<Transition>)
      requires Valid() && cfg.name in states && cfg.failures >= 1
      modifies states[cfg.name]
      ensures Valid() && states == old(states)
      ensures states[cfg.name].View() == Observe(old(states[cfg.name].View()), failed, cfg.failures)
      ensures callback == Change(old(states[cfg.name].status), states[cfg.name].status)
      ensures forall n :: n in states && n != cfg.name ==> unchanged(states[n])
    {
      callback := [];
      var state := states[cfg.name];
      state.totalProbes := state.totalProbes + 1;
      var oldStatus := state.status;
      if failed {
        state.totalFailures := state.totalFailures + 1;
        state.consecutiveFails := state.consecutiveFails + 1;
        if state.consecutiveFails >= cfg.failures {
          state.status := Down;
        } else if state.consecutiveFails >= 1 {
          state.status := Degraded;
        }
      } else {
        state.consecutiveFails := 0;
        state.status := Healthy;
      }
      if oldStatus != state.status {
        callback := [Transition(oldStatus, state.status)];
      }
    }

    // One uplink's loop over the ticks that arrive before it is cancelled.
    method ProbeLoop(cfg: ProbeConfig, outcomes: seq<bool>) returns (callbacks: seq<Transition>)
      requires Valid() && cfg.name in states
      modifies states[cfg.name]
      ensures Valid() && states == old(states)
      ensures var t := EffectiveThreshold(cfg.failures);
              && states[cfg.name].View() == FoldFrom(old(states[cfg.name].View()), outcomes, t)
              && callbacks == EmittedFrom(old(states[cfg.name].View()), outcomes, t)
    {
      var effective := Effective(cfg);
      callbacks := [];
      for i := 0 to |outcomes|
        invariant Valid() && states == old(states)
        invariant states[cfg.name].View() == FoldFrom(old(states[cfg.name].View()), outcomes[..i], effective.failures)
        invariant callbacks == EmittedFrom(old(states[cfg.name].View()), outcomes[..i], effective.failures)
      {
        assert outcomes[..i + 1][..i] == outcomes[..i];
        var c := DoPing(effective, outcomes[i]);
        callbacks := callbacks + c;
      }
      assert outcomes[..|outcomes|] == outcomes;
    }

    // Names of the uplinks that are currently healthy.
    method HealthyUplinks() returns (names: set<string>)
      ensures names == set n | n in states && states[n].status == Healthy
    {
      names := {};
      var todo := states.Keys;
      while todo != {}
        invariant todo <= states.Keys
        invariant names == set n | n in states && n !in todo && states[n].status == Healthy
      {
        var n :| n in todo;
        todo := todo - {n};
        if states[n].status == Healthy {
          names := names + {n};
        }
      }
    }
  }
}
