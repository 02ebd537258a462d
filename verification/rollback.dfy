/**
 `warp rollback` (cmdRollback in cmd/warp/main.go): apply the previous revision and save it as a new one. Over a
 history of saves, repeated rollbacks alternate between two configurations.
 */
module Rollback {
  import opened Text
  import opened Config
  import Apply
  import VLAN
  import opened Revision

  /* ---------- Rollbacks on histories ---------- */

  // A successful rollback appends the content of the second newest revision, under a new id and with a later time.
  ghost predicate RollsBack(before: seq<Revision>, after: seq<Revision>) {
    && |before| >= 2 && |after| == |before| + 1 && after[..|before|] == before
    && after[|before|].content == before[|before| - 2].content
    && after[|before|].timestamp > before[|before| - 1].timestamp
    && (forall r :: r in before ==> r.id != after[|before|].id)
  }

  ghost predicate StepAt(run: seq<seq<Revision>>, i: nat)
    requires i + 1 < |run|
  {
    RollsBack(run[i], run[i + 1])
  }

  ghost predicate IsRun(run: seq<seq<Revision>>) {
    run != [] && |run[0]| >= 2 && forall i :: 0 <= i < |run| - 1 ==> StepAt(run, i)
  }

  // The content n revisions before the newest.
  function Back(h: seq<Revision>, n: nat): string
    requires n < |h|
  {
    h[|h| - 1 - n].content
  }

  // After an even number of rollbacks the current content is the original one, after an odd number the one before
  // it; in particular two rollbacks restore the original.
  lemma {:induction false} RollbacksAlternate(run: seq<seq<Revision>>, n: nat)
    requires IsRun(run) && n < |run|
    ensures |run[n]| == |run[0]| + n && run[n][..|run[0]|] == run[0]
    ensures Back(run[n], 0) == Back(run[0], n % 2)
    ensures Back(run[n], 1) == Back(run[0], 1 - n % 2)
  {
    if n > 0 {
      RollbacksAlternate(run, n - 1);
      assert StepAt(run, n - 1);
      var before, after := run[n - 1], run[n];
      assert before == after[..|before|];
      assert after[|after| - 2] == before[|before| - 1];
    }
  }

  /* ---------- The command ---------- */

  datatype Outcome = NoPrevious | Unreadable | Unparsable | Locked | NotApplied | Applied(saved: bool)

  // The command takes an empty name of the failed step for success.
  ghost predicate StepsAreNamed(steps: seq<Apply.Step>) {
    forall s :: s in steps ==> s.name != ""
  }

  // What a rollback that saved has done to the store: it appended a revision with the time and an id of that second.
  ghost predicate SavedAs(
    before: Disk, after: Disk, h: seq<Revision>, h': seq<Revision>, now: nat, stamp: string)
  {
    && RollsBack(h, h') && Represents(after, h')
    && h'[|h|].timestamp == now && h'[|h|].comment == "rollback to " + h[|h| - 2].id
    && after.dirs.Keys == before.dirs.Keys + {h'[|h|].id}
    && (stamp !in before.dirs ==> h'[|h|].id == stamp)
  }

  lemma SavedRollsBack(before: Disk, after: Disk, h: seq<Revision>, r: Revision, stamp: string, index: nat)
    requires Represents(before, h) && |h| >= 2 && r.content == Back(h, 1) && r.timestamp > h[|h| - 1].timestamp
    requires r.comment == "rollback to " + h[|h| - 2].id
    requires IsStamp(stamp) && FirstFree(before.dirs.Keys, stamp, index) && r.id == Candidate(stamp, index)
    requires after == Disk(before.dirs[r.id := Entry(ConfigIs(r.content), MetaIs(r.Meta()))], Some(r.id))
    ensures SavedAs(before, after, h, h + [r], r.timestamp, stamp)
  {
    hide Represents;
    SaveExtendsHistory(before, after, h, r);
    forall q | q in h
      ensures q.id != r.id
    {
      HistoryIsStored(before, h, q);
    }
    if index > 0 {
      assert Candidate(stamp, 0) in before.dirs.Keys;
    }
  }

  lemma SavedIsStep(before: Disk, after: Disk, h: seq<Revision>, h': seq<Revision>, now: nat, stamp: string)
    requires SavedAs(before, after, h, h', now, stamp)
    ensures RollsBack(h, h')
  {
  }

  lemma RunSnoc(run: seq<seq<Revision>>, h': seq<Revision>)
    requires IsRun(run) && RollsBack(run[|run| - 1], h')
    ensures IsRun(run + [h'])
  {
    forall i | 0 <= i < |run|
      ensures StepAt(run + [h'], i)
    {
      assert i < |run| - 1 ==> StepAt(run, i);
    }
  }

  class Machine {
    const store: Store
    const pipeline: Apply.Pipeline
    const parse: string -> Option<SiteConfig>

    constructor (store: Store, pipeline: Apply.Pipeline, parse: string -> Option<SiteConfig>)
      ensures this.store == store && this.pipeline == pipeline && this.parse == parse
    {
      this.store := store;
      this.pipeline := pipeline;
      this.parse := parse;
    }

    // How often the operations that a rollback depends on have failed.
    ghost predicate NothingFailed(faults: nat, refused: nat, services: nat, host: nat)
      reads store, pipeline.fs, pipeline.services, pipeline.host
    {
      && store.faults == faults && pipeline.fs.refused == refused && pipeline.services.failures == services
      && pipeline.host.failures == host
    }

    // A stored text that parses to a configuration which every step can render and every VLAN of which has a parent.
    ghost predicate Loadable(content: string) {
      && parse(content).Some?
      && (forall s :: s in pipeline.steps ==> s.render(parse(content).value).Some?)
      && VLAN.AllHaveParents(parse(content).value.interfaces)
    }

    // Execute, seen from the command.
    method ApplyContent(cfg: SiteConfig) returns (applied: Apply.Result)
      modifies pipeline.fs, pipeline.host, pipeline.services
      ensures pipeline.fs.refused >= old(pipeline.fs.refused)
      ensures pipeline.services.failures >= old(pipeline.services.failures)
      ensures pipeline.host.failures >= old(pipeline.host.failures)
      ensures applied.failed == "" && Apply.SafePaths(pipeline.steps) && StepsAreNamed(pipeline.steps) ==>
                Apply.AllWritten(pipeline.steps, cfg, pipeline.fs.files)
      ensures (forall s :: s in pipeline.steps ==> s.render(cfg).Some?) && VLAN.AllHaveParents(cfg.interfaces)
              && pipeline.fs.refused == old(pipeline.fs.refused)
              && pipeline.services.failures == old(pipeline.services.failures)
              && pipeline.host.failures == old(pipeline.host.failures) ==>
                applied.failed == "" && applied.err.None?
    {
      hide Apply.OthersKept, Apply.BackupsGone, Apply.Keeps, Apply.StandsAt, Apply.SafePaths, Apply.AllWritten,
           Apply.BackupNames, Apply.Touched, Apply.CallsMade, VLAN.AllHaveParents, VLAN.Reconciled, VLAN.NothingOnStale;
      ghost var outcomes;
      applied, outcomes := pipeline.Execute(cfg);
      if applied.err.Some? && applied.err != Some(Apply.VlanError) {
        ghost var s := pipeline.steps[|applied.completed|];
        assert s in pipeline.steps && Apply.CauseFits(s, pipeline.reloads, cfg, applied.err);
        match applied.err.value
        case VlanError =>
        case RenderError => assert s.render(cfg).None?;
        case WriteError => assert pipeline.fs.refused != old(pipeline.fs.refused);
        case SysctlError => assert pipeline.services.failures != old(pipeline.services.failures);
        case ReloadError => assert pipeline.services.failures != old(pipeline.services.failures);
      }
    }

    /**
     cmdRollback; `lockFree` says whether the lock can be had. Nothing is saved unless the previous configuration was
     applied, nothing is applied unless it could be read, parsed and locked for. When nothing fails the previous
     content is applied and becomes the current revision.
     */
    method Rollback(now: nat, stamp: string, lockFree: bool, ghost h: seq<Revision>)
      returns (r: Outcome, ghost result: Option<Apply.Result>, ghost h': seq<Revision>)
      requires IsStamp(stamp)
      modifies store, pipeline.fs, pipeline.host, pipeline.services
      ensures store.faults >= old(store.faults) && pipeline.fs.refused >= old(pipeline.fs.refused)
      ensures pipeline.services.failures >= old(pipeline.services.failures)
      ensures pipeline.host.failures >= old(pipeline.host.failures)
      ensures !r.Applied? ==> store.disk == old(store.disk)
      ensures result.None? ==>
                pipeline.fs.files == old(pipeline.fs.files) && pipeline.services.calls == old(pipeline.services.calls)
      ensures result.Some? <==> r == NotApplied || r.Applied?
      ensures r == NotApplied <==> result.Some? && result.value.failed != ""
      ensures r == Locked ==> !lockFree
      ensures result.Some? ==> lockFree
      ensures Represents(old(store.disk), h) && store.faults == old(store.faults) ==>
                && (r == NoPrevious <==> |h| < 2)
                && (r == Unreadable <==> |h| >= 2 && !ValidId(h[|h| - 2].id))
                && (r == Unparsable <==> |h| >= 2 && ValidId(h[|h| - 2].id) && parse(Back(h, 1)).None?)
      ensures r.Applied? && r.saved && Represents(old(store.disk), h) && store.faults == old(store.faults)
              && h[|h| - 1].timestamp < now ==>
                SavedAs(old(store.disk), store.disk, h, h', now, stamp)
      ensures Represents(old(store.disk), h) && store.faults == old(store.faults) && r.Applied? ==>
                && |h| >= 2 && parse(Back(h, 1)).Some?
                && (Apply.SafePaths(pipeline.steps) && StepsAreNamed(pipeline.steps) ==>
                      Apply.AllWritten(pipeline.steps, parse(Back(h, 1)).value, pipeline.fs.files))
      ensures Represents(old(store.disk), h) && |h| >= 2 && ValidId(h[|h| - 2].id) && Loadable(Back(h, 1)) && lockFree
              && NothingFailed(old(store.faults), old(pipeline.fs.refused), old(pipeline.services.failures),
                               old(pipeline.host.failures)) ==>
                r == Applied(true) && result.value.err.None?
    {
      hide Represents, NewestFirst, DistinctIds, Listed, NextAfter, ValidId, Valid, Safe, SafeSince, CurrentIsWhole,
           RollsBack, SavedAs, FirstFree, IsStamp, Retrieved, StepsAreNamed, Apply.SafePaths, Apply.AllWritten,
           VLAN.AllHaveParents;
      result, h' := None, h;
      var prevId, listing := store.Previous();
      if Represents(store.disk, h) && old(store.faults) == store.faults {
        PreviousOfHistory(store.disk, h, listing.value);
      }
      if prevId == "" {
        return NoPrevious, result, h';
      }
      var found := store.Get(prevId);
      if found.None? {
        return Unreadable, result, h';
      }
      var content := found.value.0;
      var cfg := parse(content);
      if cfg.None? {
        return Unparsable, result, h';
      }
      if !lockFree {
        return Locked, result, h';
      }
      var applied := ApplyContent(cfg.value);
      result := Some(applied);
      if applied.failed != "" {
        return NotApplied, result, h';
      }
      var saved, index := store.Save(content, "rollback to " + prevId, now, stamp);
      if saved.Some? && Represents(old(store.disk), h) && |h| >= 2 && h[|h| - 1].timestamp < now
         && old(store.faults) == store.faults {
        ghost var revision := Revision(saved.value, content, now, "rollback to " + prevId);
        SavedRollsBack(old(store.disk), store.disk, h, revision, stamp, index);
        h' := h + [revision];
      }
      r := Applied(saved.Some?);
    }

    // The two newest revisions can be read, and their contents applied.
    ghost predicate Ready(h: seq<Revision>) {
      && |h| >= 2 && ValidId(h[|h| - 1].id) && ValidId(h[|h| - 2].id)
      && Loadable(Back(h, 0)) && Loadable(Back(h, 1))
    }

    // A history to go on from: saves from now on are later, and take their seconds' first ids.
    ghost predicate Steady(d: Disk, h: seq<Revision>, nows: seq<nat>, stamps: seq<string>) {
      && Represents(d, h) && Ready(h)
      && (forall i :: 0 <= i < |nows| ==> h[|h| - 1].timestamp < nows[i])
      && (forall i, j :: 0 <= i < j < |nows| ==> nows[i] < nows[j])
      && (forall i :: 0 <= i < |stamps| ==> stamps[i] !in d.dirs)
      && (forall i, j :: 0 <= i < j < |stamps| ==> stamps[i] != stamps[j])
    }

    lemma StaysSteady(before: Disk, after: Disk, h: seq<Revision>, h': seq<Revision>, nows: seq<nat>,
                      stamps: seq<string>)
      requires Steady(before, h, nows, stamps) && |nows| == |stamps| > 0 && IsStamp(stamps[0])
      requires SavedAs(before, after, h, h', nows[0], stamps[0])
      ensures Steady(after, h', nows[1..], stamps[1..])
    {
      hide Represents, Loadable;
      assert h'[..|h|] == h;
      assert h'[|h| - 1] == h[|h| - 1] && h'[|h|].id == stamps[0];
    }

    // Where a run of rollbacks that began at h has got to.
    ghost predicate GotTo(
      h: seq<Revision>, run: seq<seq<Revision>>, rs: seq<Outcome>, d: Disk, nows: seq<nat>, stamps: seq<string>)
    {
      && run != [] && run[0] == h && IsRun(run) && (forall r :: r in rs ==> r == Applied(true))
      && Steady(d, run[|run| - 1], nows, stamps)
    }

    lemma GetsFurther(h: seq<Revision>, run: seq<seq<Revision>>, rs: seq<Outcome>, d: Disk, nows: seq<nat>,
                      stamps: seq<string>, h': seq<Revision>, d': Disk)
      requires GotTo(h, run, rs, d, nows, stamps) && |nows| == |stamps| > 0 && IsStamp(stamps[0])
      requires SavedAs(d, d', run[|run| - 1], h', nows[0], stamps[0])
      ensures GotTo(h, run + [h'], rs + [Applied(true)], d', nows[1..], stamps[1..])
    {
      hide Steady, SavedAs, RollsBack, IsStamp;
      StaysSteady(d, d', run[|run| - 1], h', nows, stamps);
      SavedIsStep(d, d', run[|run| - 1], h', nows[0], stamps[0]);
      RunSnoc(run, h');
    }

    /**
     One rollback after the other, with the lock free each time. When nothing fails they all succeed, and contents
     alternate: after n of them the one current before is current again if n is even, the one before that if n is odd.
     */
    method RollbackRepeatedly(nows: seq<nat>, stamps: seq<string>, ghost h: seq<Revision>)
      returns (rs: seq<Outcome>, ghost run: seq<seq<Revision>>)
      requires |nows| == |stamps| && forall s :: s in stamps ==> IsStamp(s)
      modifies store, pipeline.fs, pipeline.host, pipeline.services
      ensures |rs| == |nows| && |run| == |nows| + 1
      ensures Steady(old(store.disk), h, nows, stamps)
              && NothingFailed(old(store.faults), old(pipeline.fs.refused), old(pipeline.services.failures),
                               old(pipeline.host.failures)) ==>
                && (forall r :: r in rs ==> r == Applied(true))
                && run[0] == h && IsRun(run) && Represents(store.disk, run[|nows|])
                && run[|nows|] != [] && Back(run[|nows|], 0) == Back(h, |nows| % 2)
    {
      hide Steady, SavedAs, IsRun, Loadable, Represents, IsStamp, ValidId, GotTo;
      rs, run := [], [h];
      StartsHere(h, store.disk, nows, stamps);
      assert nows[0..] == nows && stamps[0..] == stamps;
      for i := 0 to |nows|
        invariant |rs| == i && |run| == i + 1
        invariant store.faults >= old(store.faults) && pipeline.fs.refused >= old(pipeline.fs.refused)
        invariant pipeline.services.failures >= old(pipeline.services.failures)
        invariant pipeline.host.failures >= old(pipeline.host.failures)
        invariant Steady(old(store.disk), h, nows, stamps)
                  && NothingFailed(old(store.faults), old(pipeline.fs.refused), old(pipeline.services.failures),
                                   old(pipeline.host.failures)) ==>
                    GotTo(h, run, rs, store.disk, nows[i..], stamps[i..])
      {
        ghost var before := store.disk;
        ghost var fine := GotTo(h, run, rs, before, nows[i..], stamps[i..]);
        if fine {
          CanGoOn(h, run, rs, before, nows[i..], stamps[i..]);
        }
        var r;
        ghost var result, h';
        r, result, h' := Rollback(nows[i], stamps[i], true, run[i]);
        if fine && r == Applied(true) && SavedAs(before, store.disk, run[i], h', nows[i], stamps[i]) {
          GetsFurther(h, run, rs, before, nows[i..], stamps[i..], h', store.disk);
          assert nows[i..][1..] == nows[i + 1..] && stamps[i..][1..] == stamps[i + 1..];
        }
        rs, run := rs + [r], run + [h'];
      }
      ghost var n := |nows|;
      if GotTo(h, run, rs, store.disk, nows[n..], stamps[n..]) {
        CanGoOn(h, run, rs, store.disk, nows[n..], stamps[n..]);
        RollbacksAlternate(run, n);
      }
    }

    lemma StartsHere(h: seq<Revision>, d: Disk, nows: seq<nat>, stamps: seq<string>)
      ensures Steady(d, h, nows, stamps) ==> GotTo(h, [h], [], d, nows, stamps)
    {
    }

    lemma CanGoOn(h: seq<Revision>, run: seq<seq<Revision>>, rs: seq<Outcome>, d: Disk, nows: seq<nat>,
                  stamps: seq<string>)
      requires GotTo(h, run, rs, d, nows, stamps)
      ensures run != [] && run[0] == h && IsRun(run) && forall r :: r in rs ==> r == Applied(true)
      ensures var last := run[|run| - 1];
              && Represents(d, last) && |last| >= 2 && ValidId(last[|last| - 2].id) && Loadable(Back(last, 1))
              && (nows != [] ==> last[|last| - 1].timestamp < nows[0])
    {
    }
  }
}
