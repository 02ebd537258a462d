/**
 The apply lock (AcquireLock in internal/apply/apply.go) as steps of processes over inodes. The lock file is removed
 on release, so a process may hold a lock on a file that no longer has a name. Which removals do harm is decided
 exactly.
 */
module Lock {
  import opened Text

  type Pid = nat

  // Where a process is: between open and flock, holding, or in the three steps of the cleanup.
  datatype Phase = Idle | Opened(inode: nat) | Holding(inode: nat) | Unlocked | Closed

  // `path` is the inode the lock file's name leads to; `next` is the inode the next created file gets.
  datatype State = State(path: Option<nat>, procs: map<Pid, Phase>, next: nat)
  {
    function At(p: Pid): Phase {
      if p in procs then procs[p] else Idle
    }

    function Put(p: Pid, phase: Phase): State {
      this.(procs := procs[p := phase])
    }
  }

  datatype Step =
    | Open(p: Pid) | Flock(p: Pid)
    | Unlock(p: Pid) | Close(p: Pid) | Remove(p: Pid, removed: bool)
    | Exit(p: Pid)

  ghost predicate Locked(s: State, inode: nat) {
    exists q :: s.At(q) == Holding(inode)
  }

  // None when the step is not possible. A lock that is taken closes the file; an exit releases everything but leaves
  // the file; Close also releases, should Unlock have failed.
  ghost function Do(s: State, step: Step): Option<State> {
    match (step, s.At(step.p))
    case (Open(p), Idle) =>
      if s.path.Some? then Some(s.Put(p, Opened(s.path.value)))
      else Some(s.(path := Some(s.next), next := s.next + 1).Put(p, Opened(s.next)))
    case (Flock(p), Opened(i)) => Some(s.Put(p, if Locked(s, i) then Idle else Holding(i)))
    case (Unlock(p), Holding(_)) => Some(s.Put(p, Unlocked))
    case (Close(p), Holding(_)) => Some(s.Put(p, Closed))
    case (Close(p), Unlocked) => Some(s.Put(p, Closed))
    case (Remove(p, removed), Closed) =>
      Some((if removed then s.(path := None) else s).Put(p, Idle))
    case (Exit(p), _) => Some(s.Put(p, Idle))
    case _ => None
  }

  ghost function Run(s: State, steps: seq<Step>): Option<State> {
    if steps == [] then Some(s)
    else
      var before := Run(s, steps[..|steps| - 1]);
      if before.None? then None else Do(before.value, steps[|steps| - 1])
  }

  ghost predicate MutualExclusion(s: State) {
    forall p, q :: s.At(p).Holding? && s.At(q).Holding? ==> p == q
  }

  /* ---------- Invariants ---------- */

  predicate HasFile(phase: Phase) {
    phase.Opened? || phase.Holding?
  }

  // Every file in use is the one the name leads to, an inode is locked once, and new inodes are new.
  ghost predicate Sound(s: State) {
    && (forall p :: HasFile(s.At(p)) ==> s.path == Some(s.At(p).inode))
    && (forall p, q :: s.At(p).Holding? && s.At(q) == s.At(p) ==> p == q)
    && (s.path.Some? ==> s.path.value < s.next)
  }

  // No other process is between open and flock, or holds.
  ghost predicate Quiet(s: State, p: Pid) {
    forall q :: q != p ==> !HasFile(s.At(q))
  }

  ghost predicate Harmless(s: State, step: Step) {
    step.Remove? && step.removed ==> Quiet(s, step.p)
  }

  lemma SoundExcludes(s: State)
    requires Sound(s)
    ensures MutualExclusion(s)
  {
  }

  lemma HarmlessStepsKeepSound(s: State, step: Step)
    requires Sound(s) && Harmless(s, step) && Do(s, step).Some?
    ensures Sound(Do(s, step).value)
  {
    var t := Do(s, step).value;
    assert forall q :: q != step.p ==> t.At(q) == s.At(q);
    if step.Flock? && !Locked(s, s.At(step.p).inode) {
      assert forall q :: s.At(q) != Holding(s.At(step.p).inode);
    }
  }

  const START := State(None, map[], 0)

  ghost predicate HarmlessRun(s: State, steps: seq<Step>) {
    forall k :: 0 <= k < |steps| && Run(s, steps[..k]).Some? ==> Harmless(Run(s, steps[..k]).value, steps[k])
  }

  // Safety over whole runs: when every removal happens while no other process uses the file, at most one process
  // holds the lock.
  lemma {:induction false} HarmlessRunsExclude(s: State, steps: seq<Step>)
    requires Sound(s) && HarmlessRun(s, steps) && Run(s, steps).Some?
    ensures Sound(Run(s, steps).value) && MutualExclusion(Run(s, steps).value)
  {
    if steps != [] {
      var front, last := steps[..|steps| - 1], steps[|steps| - 1];
      forall k | 0 <= k < |front| && Run(s, front[..k]).Some?
        ensures Harmless(Run(s, front[..k]).value, front[k])
      {
        assert front[..k] == steps[..k];
      }
      HarmlessRunsExclude(s, front);
      HarmlessStepsKeepSound(Run(s, front).value, last);
    }
    SoundExcludes(Run(s, steps).value);
  }

  /* ---------- Acquiring and releasing ---------- */

  lemma RunTwo(s: State, first: Step, second: Step)
    requires Do(s, first).Some?
    ensures Run(s, [first, second]) == Do(Do(s, first).value, second)
  {
    assert [first] == [] + [first] && [first, second] == [first] + [second];
    RunSnoc(s, [], first);
    RunSnoc(s, [first], second);
  }

  // AcquireLock succeeds exactly when no process holds the lock; otherwise it leaves nothing behind.
  lemma AcquireExactlyWhen(s: State, p: Pid)
    requires Sound(s) && s.At(p) == Idle
    ensures var r := Run(s, [Open(p), Flock(p)]);
            && r.Some? && r.value.At(p) in {Idle, Holding(if s.path.Some? then s.path.value else s.next)}
            && (r.value.At(p).Holding? <==> forall q :: !s.At(q).Holding?)
  {
    RunTwo(s, Open(p), Flock(p));
    var t := Do(s, Open(p)).value;
    var inode := if s.path.Some? then s.path.value else s.next;
    assert t.At(p) == Opened(inode) && forall q :: q != p ==> t.At(q) == s.At(q);
    if q :| s.At(q).Holding? {
      assert t.At(q) == Holding(inode);
    } else {
      assert !Locked(t, inode);
    }
  }

  // A holder that unlocks, closes or exits lets the next process in.
  lemma ReleaseLetsIn(s: State, p: Pid, release: Step, q: Pid)
    requires Sound(s) && s.At(p).Holding? && release in {Unlock(p), Close(p), Exit(p)} && s.At(q) == Idle
    ensures Do(s, release).Some?
    ensures var r := Run(Do(s, release).value, [Open(q), Flock(q)]); r.Some? && r.value.At(q).Holding?
  {
    SoundExcludes(s);
    HarmlessStepsKeepSound(s, release);
    var t := Do(s, release).value;
    assert forall n :: n != p ==> t.At(n) == s.At(n);
    AcquireExactlyWhen(t, q);
  }

  /* ---------- Which removals do harm ---------- */

  ghost predicate NoRemovals(steps: seq<Step>) {
    forall a :: a in steps ==> !(a.Remove? && a.removed)
  }

  // Two processes can come to hold the lock without any further removal.
  ghost predicate CanBreak(s: State) {
    exists steps :: NoRemovals(steps) && Run(s, steps).Some? && !MutualExclusion(Run(s, steps).value)
  }

  lemma RunSnoc(s: State, steps: seq<Step>, last: Step)
    requires Run(s, steps).Some?
    ensures Run(s, steps + [last]) == Do(Run(s, steps).value, last)
  {
    assert (steps + [last])[..|steps|] == steps;
  }

  // The name is gone, `holder` still holds the file, and `p` makes and locks a new one.
  lemma SecondHolder(s: State, steps: seq<Step>, p: Pid, holder: Pid)
    requires NoRemovals(steps) && Run(s, steps).Some?
    requires var t := Run(s, steps).value;
             && t.path == None && t.At(p) == Idle && t.At(holder).Holding?
             && forall q :: HasFile(t.At(q)) ==> t.At(q).inode < t.next
    ensures CanBreak(s)
  {
    var t := Run(s, steps).value;
    var u := Do(t, Open(p)).value;
    RunSnoc(s, steps, Open(p));
    assert u.At(p) == Opened(t.next) && u.At(holder) == t.At(holder);
    assert !Locked(u, t.next) by {
      forall q
        ensures u.At(q) != Holding(t.next)
      {
        assert q != p ==> u.At(q) == t.At(q);
      }
    }
    RunSnoc(s, steps + [Open(p)], Flock(p));
    var v := Do(u, Flock(p)).value;
    assert v.At(p).Holding? && v.At(holder).Holding?;
    assert NoRemovals(steps + [Open(p)] + [Flock(p)]);
  }

  lemma RemovalCanBreak(s: State, p: Pid, q: Pid)
    requires Sound(s) && s.At(p) == Closed && q != p && HasFile(s.At(q))
    ensures CanBreak(Do(s, Remove(p, true)).value)
  {
    var t := Do(s, Remove(p, true)).value;
    assert forall r :: t.At(r) == if r == p then Idle else s.At(r);
    if holder :| s.At(holder).Holding? {
      SecondHolder(t, [], p, holder);
    } else {
      WindowCanBreak(t, p, q);
    }
  }

  // Nobody holds, and q is on its way to lock the file that has just lost its name.
  lemma WindowCanBreak(t: State, p: Pid, q: Pid)
    requires t.path == None && t.At(p) == Idle && t.At(q).Opened? && q != p
    requires forall r :: !t.At(r).Holding? && (t.At(r).Opened? ==> t.At(r).inode < t.next)
    ensures CanBreak(t)
  {
    assert !Locked(t, t.At(q).inode);
    RunSnoc(t, [], Flock(q));
    assert [] + [Flock(q)] == [Flock(q)];
    var u := Do(t, Flock(q)).value;
    assert forall r :: u.At(r) == if r == q then Holding(t.At(q).inode) else t.At(r);
    SecondHolder(t, [Flock(q)], p, q);
  }

  lemma {:induction false} SoundCannotBreak(s: State, steps: seq<Step>)
    requires Sound(s) && NoRemovals(steps) && Run(s, steps).Some?
    ensures MutualExclusion(Run(s, steps).value)
  {
    HarmlessRunsExclude(s, steps);
  }

  // Main result: a removal opens the way to two holders exactly when, at that moment, another process has the file
  // open on its way to flock or holds it.
  lemma RemovalIsHarmfulExactlyWhen(s: State, p: Pid)
    requires Sound(s) && s.At(p) == Closed
    ensures CanBreak(Do(s, Remove(p, true)).value) <==> !Quiet(s, p)
  {
    var t := Do(s, Remove(p, true)).value;
    if Quiet(s, p) {
      HarmlessStepsKeepSound(s, Remove(p, true));
      forall steps | NoRemovals(steps) && Run(t, steps).Some?
        ensures MutualExclusion(Run(t, steps).value)
      {
        SoundCannotBreak(t, steps);
      }
    } else {
      var q :| q != p && HasFile(s.At(q));
      RemovalCanBreak(s, p, q);
    }
  }

  /* ---------- Windows that do not overlap a cleanup ---------- */

  predicate Cleaning(phase: Phase) {
    phase.Unlocked? || phase.Closed?
  }

  // No process is between open and flock while another one cleans up.
  ghost predicate NoOverlap(s: State) {
    forall p, q :: p != q && Cleaning(s.At(p)) ==> !s.At(q).Opened?
  }

  ghost predicate NeverOverlaps(s: State, steps: seq<Step>) {
    forall k :: 0 <= k <= |steps| && Run(s, steps[..k]).Some? ==> NoOverlap(Run(s, steps[..k]).value)
  }

  // Whoever cleans up is alone.
  ghost predicate CleansAlone(s: State) {
    forall p, q :: p != q && Cleaning(s.At(p)) ==> s.At(q) == Idle
  }

  lemma StepsKeepCleansAlone(s: State, step: Step)
    requires Sound(s) && CleansAlone(s) && Do(s, step).Some? && NoOverlap(Do(s, step).value)
    ensures Harmless(s, step) && CleansAlone(Do(s, step).value)
  {
    var t := Do(s, step).value;
    SoundExcludes(s);
    assert forall q :: q != step.p ==> t.At(q) == s.At(q);
  }

  // The guarantee in the terms of the callers: when no acquire's open-to-flock window overlaps another process's
  // cleanup, at most one process holds the lock throughout.
  lemma {:induction false} NonOverlappingRunsExclude(s: State, steps: seq<Step>)
    requires Sound(s) && CleansAlone(s) && NeverOverlaps(s, steps) && Run(s, steps).Some?
    ensures Sound(Run(s, steps).value) && CleansAlone(Run(s, steps).value)
    ensures MutualExclusion(Run(s, steps).value)
  {
    if steps != [] {
      var front, last := steps[..|steps| - 1], steps[|steps| - 1];
      forall k | 0 <= k <= |front| && Run(s, front[..k]).Some?
        ensures NoOverlap(Run(s, front[..k]).value)
      {
        assert front[..k] == steps[..k];
      }
      NonOverlappingRunsExclude(s, front);
      assert steps[..|steps|] == steps;
      StepsKeepCleansAlone(Run(s, front).value, last);
      HarmlessStepsKeepSound(Run(s, front).value, last);
    }
    SoundExcludes(Run(s, steps).value);
  }

  lemma StartIsGood()
    ensures Sound(START) && CleansAlone(START)
  {
  }

  // From the start, when nobody has opened the file: either condition suffices for every run.
  lemma LockWorks(steps: seq<Step>)
    requires Run(START, steps).Some?
    requires HarmlessRun(START, steps) || NeverOverlaps(START, steps)
    ensures MutualExclusion(Run(START, steps).value)
  {
    StartIsGood();
    if HarmlessRun(START, steps) {
      HarmlessRunsExclude(START, steps);
    } else {
      NonOverlappingRunsExclude(START, steps);
    }
  }

  lemma {:induction false} PrefixRuns(s: State, steps: seq<Step>, k: nat)
    requires Run(s, steps).Some? && k <= |steps|
    ensures Run(s, steps[..k]).Some?
  {
    if k == |steps| {
      assert steps[..k] == steps;
    } else {
      PrefixRuns(s, steps[..|steps| - 1], k);
      assert steps[..|steps| - 1][..k] == steps[..k];
    }
  }

  lemma HarmlessPrefix(s: State, steps: seq<Step>, k: nat)
    requires HarmlessRun(s, steps) && k <= |steps|
    ensures HarmlessRun(s, steps[..k])
  {
    assert forall j :: 0 <= j < k ==> steps[..k][..j] == steps[..j];
  }

  // A harmful step is a removal, and after it the lock can break.
  lemma HarmfulStep(s: State, step: Step)
    requires Sound(s) && Do(s, step).Some? && !Harmless(s, step)
    ensures CanBreak(Do(s, step).value)
  {
    hide CanBreak, Sound, Quiet;
    RemovalIsHarmfulExactlyWhen(s, step.p);
  }

  // Whether a run is harmless is decided step by step.
  lemma HarmlessSnoc(s: State, steps: seq<Step>)
    requires steps != [] && Run(s, steps).Some?
    ensures var front := steps[..|steps| - 1];
            && Run(s, front).Some? && Do(Run(s, front).value, steps[|front|]) == Run(s, steps)
            && (HarmlessRun(s, front) && Harmless(Run(s, front).value, steps[|front|]) ==> HarmlessRun(s, steps))
  {
    hide Harmless, Do;
    var front := steps[..|steps| - 1];
    if HarmlessRun(s, front) && Harmless(Run(s, front).value, steps[|front|]) {
      forall k | 0 <= k < |steps| && Run(s, steps[..k]).Some?
        ensures Harmless(Run(s, steps[..k]).value, steps[k])
      {
        assert k < |front| ==> front[..k] == steps[..k] && front[k] == steps[k];
      }
    }
  }

  // Along a run that is not harmless the lock can break at some point: after its first harmful removal.
  lemma {:induction false} HarmCanBreak(s: State, steps: seq<Step>) returns (k: nat)
    requires Sound(s) && Run(s, steps).Some? && !HarmlessRun(s, steps)
    ensures k <= |steps| && Run(s, steps[..k]).Some? && CanBreak(Run(s, steps[..k]).value)
  {
    hide CanBreak, Sound, Harmless, Do, Run;
    var front := steps[..|steps| - 1];
    HarmlessSnoc(s, steps);
    if HarmlessRun(s, front) {
      k := |steps|;
      assert steps[..k] == steps;
      HarmlessRunsExclude(s, front);
      HarmfulStep(Run(s, front).value, steps[|front|]);
    } else {
      k := HarmCanBreak(s, front);
      assert front[..k] == steps[..k];
    }
  }

  lemma HarmlessCannotBreak(s: State, steps: seq<Step>)
    requires Sound(s) && HarmlessRun(s, steps) && Run(s, steps).Some?
    ensures !CanBreak(Run(s, steps).value)
  {
    hide Sound, HarmlessRun;
    HarmlessRunsExclude(s, steps);
    var t := Run(s, steps).value;
    forall more | NoRemovals(more) && Run(t, more).Some?
      ensures MutualExclusion(Run(t, more).value)
    {
      SoundCannotBreak(t, more);
    }
  }

  // Main result for whole runs: from the start, the lock can break at no point of a run exactly when every removal of
  // the run happens while no other process has the file open on its way to flock or holds it.
  lemma LockBreaksExactlyWhen(steps: seq<Step>)
    requires Run(START, steps).Some?
    ensures HarmlessRun(START, steps) <==>
              forall k :: 0 <= k <= |steps| && Run(START, steps[..k]).Some? ==> !CanBreak(Run(START, steps[..k]).value)
  {
    hide HarmlessRun, CanBreak;
    StartIsGood();
    if HarmlessRun(START, steps) {
      forall k | 0 <= k <= |steps| && Run(START, steps[..k]).Some?
        ensures !CanBreak(Run(START, steps[..k]).value)
      {
        HarmlessPrefix(START, steps, k);
        HarmlessCannotBreak(START, steps[..k]);
      }
    } else {
      var k := HarmCanBreak(START, steps);
    }
  }

  // Runs without overlaps are among the harmless ones.
  lemma {:induction false} NonOverlappingIsHarmless(s: State, steps: seq<Step>)
    requires Sound(s) && CleansAlone(s) && NeverOverlaps(s, steps) && Run(s, steps).Some?
    ensures HarmlessRun(s, steps)
  {
    forall k | 0 <= k < |steps|
      ensures Run(s, steps[..k]).Some? && Harmless(Run(s, steps[..k]).value, steps[k])
    {
      PrefixRuns(s, steps, k);
      PrefixRuns(s, steps, k + 1);
      assert steps[..k + 1][..k] == steps[..k] && steps[..k + 1][k] == steps[k];
      assert forall j :: 0 <= j <= k ==> steps[..k][..j] == steps[..j];
      NonOverlappingRunsExclude(s, steps[..k]);
      StepsKeepCleansAlone(Run(s, steps[..k]).value, steps[k]);
    }
  }

  // Processes 1 and 2 on the first inode, everyone else idle.
  ghost predicate Two(s: Option<State>, first: Phase, second: Phase) {
    && s.Some? && s.value.path == Some(0) && s.value.next == 1
    && forall q :: s.value.At(q) == if q == 1 then first else if q == 2 then second else Idle
  }

  lemma TwoStep(steps: seq<Step>, step: Step, first: Phase, second: Phase, first': Phase, second': Phase)
    requires Two(Run(START, steps), first, second)
    requires (step == Unlock(1) && first == Holding(0) && first' == Unlocked && second' == second)
          || (step == Open(2) && second == Idle && second' == Opened(0) && first' == first)
          || (step == Close(1) && first == Unlocked && first' == Closed && second' == second)
    ensures Two(Run(START, steps + [step]), first', second')
  {
    RunSnoc(START, steps, step);
    var s := Run(START, steps).value;
    assert s.At(1) == first && s.At(2) == second;
    var t := Do(s, step).value;
    assert t == s.Put(step.p, if step == Unlock(1) then Unlocked else if step == Open(2) then Opened(0) else Closed);
    assert forall q :: t.At(q) == if q == step.p then t.At(step.p) else s.At(q);
  }

  // The condition is needed: the second process opens the file while the first cleans up. When the first now removes
  // it, a lock on the removed file and one on a new file can both be held.
  lemma OverlapBreaksTheLock(steps: seq<Step>)
    requires steps == [Open(1), Flock(1), Unlock(1), Open(2), Close(1)]
    ensures var s := Run(START, steps);
            s.Some? && s.value.At(1) == Closed && CanBreak(Do(s.value, Remove(1, true)).value)
  {
    FirstHolds(steps[..1]);
    assert steps[..2] == steps[..1] + [Flock(1)];
    assert steps[..3] == steps[..2] + [Unlock(1)];
    TwoStep(steps[..2], Unlock(1), Holding(0), Idle, Unlocked, Idle);
    assert steps[..4] == steps[..3] + [Open(2)];
    TwoStep(steps[..3], Open(2), Unlocked, Idle, Unlocked, Opened(0));
    assert steps == steps[..4] + [Close(1)];
    TwoStep(steps[..4], Close(1), Unlocked, Opened(0), Closed, Opened(0));
    RemovalCanBreak(Run(START, steps).value, 1, 2);
  }

  lemma FirstHolds(steps: seq<Step>)
    requires steps == [Open(1)]
    ensures Two(Run(START, steps + [Flock(1)]), Holding(0), Idle)
  {
    assert [] + steps == steps;
    RunSnoc(START, [], Open(1));
    assert START.At(1) == Idle;
    assert Do(START, Open(1)) == Some(State(Some(0), map[], 1).Put(1, Opened(0)));
    var a := Run(START, steps).value;
    assert Two(Some(a), Opened(0), Idle);
    assert !Locked(a, 0);
    RunSnoc(START, steps, Flock(1));
  }
}
