/**
 The apply pipeline (internal/apply/apply.go): back up, render, write, reload, and restore when a step fails, over
 an abstract file map. Every file operation, reload and command may fail.
 */
module Apply {
  import opened Text
  import opened Config
  import VLAN

  type Files = map<string, string>

  datatype ReadResult = Content(data: string) | NotExist | ReadError

  class FileSystem {
    var files: Files
    // How many reads, plain writes and removals have failed, and how many steps of atomic writes.
    ghost var lost: nat
    ghost var refused: nat

    constructor (initial: Files)
      ensures files == initial && lost == 0 && refused == 0
    {
      files := initial;
      lost, refused := 0, 0;
    }

    method Read(path: string) returns (r: ReadResult)
      modifies this`lost
      ensures lost >= old(lost)
      ensures r == ReadError <==> lost > old(lost)
      ensures r == NotExist ==> path !in files
      ensures r.Content? ==> path in files && files[path] == r.data
    {
      var fault: bool := *;
      if fault {
        lost := lost + 1;
        return ReadError;
      }
      r := if path in files then Content(files[path]) else NotExist;
    }

    // A plain write that fails may leave the file as it was, truncated or in part written.
    method Write(path: string, data: string) returns (ok: bool)
      modifies this`files, this`lost
      ensures lost >= old(lost)
      ensures ok <==> lost == old(lost)
      ensures ok ==> files == old(files)[path := data]
      ensures files == old(files) || (path in files && files == old(files)[path := files[path]])
    {
      ok := *;
      if ok {
        files := files[path := data];
      } else {
        lost := lost + 1;
        var touched: bool := *;
        if touched {
          var part: string := *;
          files := files[path := part];
        }
      }
    }

    method Remove(path: string)
      modifies this`files, this`lost
      ensures lost >= old(lost)
      ensures lost == old(lost) ==> files == old(files) - {path}
      ensures files == old(files) || files == old(files) - {path}
    {
      var fault: bool := *;
      if fault || path !in files {
        lost := lost + if fault then 1 else 0;
      } else {
        files := files - {path};
      }
    }

    // A temporary file that is thrown away, if that can be done.
    method Discard(tmp: string)
      requires tmp in files
      modifies this`files
      ensures files == old(files) || files == old(files) - {tmp}
    {
      var fault: bool := *;
      if !fault {
        files := files - {tmp};
      }
    }

    // One step of an atomic write.
    method Attempt() returns (ok: bool)
      modifies this`refused
      ensures refused >= old(refused) && (ok <==> refused == old(refused))
    {
      ok := *;
      if !ok {
        refused := refused + 1;
      }
    }

    // atomicWrite: either the path holds the content, or it is as it was. No other file changes; a failure may leave
    // a temporary file behind. CreateTemp takes a name that does not exist, or fails.
    method AtomicWrite(path: string, content: string) returns (ok: bool)
      modifies this`files, this`refused
      ensures refused >= old(refused) && (ok <==> refused == old(refused))
      ensures ok ==> files == old(files)[path := content]
      ensures !ok ==> forall p :: p in old(files) ==> p in files && files[p] == old(files)[p]
      ensures !ok && path in files ==> path in old(files)
    {
      var madeDir := Attempt();
      if !madeDir {
        return false;
      }
      var tmp: string := *;
      var created: bool := *;
      if !created || tmp in files || tmp == path {
        refused := refused + 1;
        return false;
      }
      files := files[tmp := ""];
      var written := Attempt();
      if !written {
        var part: string := *;
        files := files[tmp := part];
        Discard(tmp);
        return false;
      }
      files := files[tmp := content];
      // Sync, Close and Chmod.
      var settled := Attempt();
      if !settled {
        Discard(tmp);
        return false;
      }
      var renamed := Attempt();
      if !renamed {
        Discard(tmp);
        return false;
      }
      files := (files - {tmp})[path := content];
      ok := true;
    }
  }

  /* ---------- Steps and names ---------- */

  // A renderer is a function of the configuration; None is a rendering error.
  datatype Step = Step(name: string, configPath: string, render: SiteConfig -> Option<string>, service: string)

  datatype Cause = VlanError | RenderError | WriteError | SysctlError | ReloadError

  datatype Result = Result(completed: seq<string>, failed: string, err: Option<Cause>)

  const SUFFIX := ".warp-backup"

  function Backup(path: string): string {
    path + SUFFIX
  }

  lemma BackupInjective(p: string, q: string)
    requires Backup(p) == Backup(q)
    ensures p == q
  {
    assert p == Backup(p)[..|Backup(p)| - |SUFFIX|];
    assert q == Backup(q)[..|Backup(q)| - |SUFFIX|];
  }

  ghost predicate IsConfig(steps: seq<Step>, path: string) {
    exists s :: s in steps && s.configPath == path
  }

  ghost predicate IsBackup(steps: seq<Step>, path: string) {
    exists s :: s in steps && Backup(s.configPath) == path
  }

  // Distinct configuration paths that are no backup names of one another.
  ghost predicate SafePaths(steps: seq<Step>) {
    && (forall i, j :: 0 <= i < j < |steps| ==> steps[i].configPath != steps[j].configPath)
    && (forall s :: s in steps ==> !IsBackup(steps, s.configPath))
  }

  function Names(steps: seq<Step>): seq<string> {
    seq(|steps|, i requires 0 <= i < |steps| => steps[i].name)
  }

  // What a backup table promises about the files: each entry holds the original content of its path.
  ghost predicate HoldsOriginals(backups: map<string, string>, files: Files, original: Files) {
    forall p :: p in backups ==>
      p in original && backups[p] == Backup(p) && Backup(p) in files && files[Backup(p)] == original[p]
  }

  ghost predicate SameAt(before: Files, after: Files, p: string) {
    (p in before <==> p in after) && (p in before ==> after[p] == before[p])
  }

  // A backup table of a run of these steps.
  ghost predicate IsTable(steps: seq<Step>, backups: map<string, string>) {
    forall p :: p in backups ==> IsConfig(steps, p) && backups[p] == Backup(p)
  }

  ghost predicate AllHeld(backups: map<string, string>, files: Files) {
    forall p :: p in backups ==> Backup(p) in files
  }

  ghost predicate SameOutside(steps: seq<Step>, before: Files, after: Files) {
    forall p :: !IsConfig(steps, p) && !IsBackup(steps, p) ==> SameAt(before, after, p)
  }

  /* ---------- Restoring one path ---------- */

  // How the plain write of a restore went: a failed one may leave the file alone or torn.
  datatype Written = Wrote | Untouched | TornTo(part: string)

  datatype RestoreOutcome = RestoreOutcome(read: bool, write: Written, removed: bool)

  // The errors of the write and of the removal are ignored.
  function RestoreEffect(files: Files, path: string, o: RestoreOutcome): Files {
    if !o.read || Backup(path) !in files then files
    else
      var written := match o.write
        case Wrote => files[path := files[Backup(path)]]
        case Untouched => files
        case TornTo(part) => files[path := part];
      if o.removed then written - {Backup(path)} else written
  }

  predicate Clean(o: RestoreOutcome) {
    o.read && o.write.Wrote? && o.removed
  }

  // Unless the write failed and the backup was removed all the same.
  predicate Keeps(o: RestoreOutcome) {
    !o.read || o.write.Wrote? || !o.removed
  }

  // The content stands at its path or under its backup name.
  predicate StandsAt(files: Files, path: string, data: string) {
    (path in files && files[path] == data) || (Backup(path) in files && files[Backup(path)] == data)
  }

  // A restore keeps the backed-up content exactly when it is of the kind that keeps, or the path holds that content
  // although the write failed.
  lemma RestoreKeepsExactlyWhen(files: Files, path: string, o: RestoreOutcome)
    requires Backup(path) in files
    ensures var data := files[Backup(path)];
            StandsAt(RestoreEffect(files, path, o), path, data) <==>
              || Keeps(o)
              || (o.write.Untouched? && path in files && files[path] == data)
              || o.write == TornTo(data)
  {
    assert |path| < |Backup(path)|;
  }

  // So a failing write can lose an original for good.
  lemma RestoreCanLose(files: Files, path: string)
    requires Backup(path) in files && files[Backup(path)] != ""
    ensures !StandsAt(RestoreEffect(files, path, RestoreOutcome(true, TornTo(""), true)), path, files[Backup(path)])
  {
    RestoreKeepsExactlyWhen(files, path, RestoreOutcome(true, TornTo(""), true));
  }

  /* ---------- Restoring all ---------- */

  // Path and backup are as the restore of that path alone leaves them.
  ghost predicate RestoredBy(before: Files, after: Files, p: string, o: RestoreOutcome) {
    var alone := RestoreEffect(before, p, o);
    SameAt(alone, after, p) && SameAt(alone, after, Backup(p))
  }

  // The state of the restoring loop: the paths of `rest` and their backups are as they were, the others are restored.
  ghost predicate Restoring(backups: map<string, string>, rest: set<string>, before: Files, now: Files,
                            outcomes: map<string, RestoreOutcome>) {
    && (forall p :: p in rest ==> SameAt(before, now, p) && SameAt(before, now, Backup(p)))
    && (forall p :: p in backups && p !in rest ==> p in outcomes && RestoredBy(before, now, p, outcomes[p]))
  }

  lemma RestoreElsewhere(mid: Files, path: string, o: RestoreOutcome, p: string)
    requires p != path && p != Backup(path)
    ensures SameAt(mid, RestoreEffect(mid, path, o), p)
  {
  }

  // A restore does the same wherever path and backup are the same.
  lemma RestoreAlike(before: Files, mid: Files, path: string, o: RestoreOutcome)
    requires SameAt(before, mid, path) && SameAt(before, mid, Backup(path))
    ensures RestoredBy(before, RestoreEffect(mid, path, o), path, o)
  {
    assert |path| < |Backup(path)|;
  }

  lemma RestoreStep(steps: seq<Step>, backups: map<string, string>, rest: set<string>, before: Files, mid: Files,
                    outcomes: map<string, RestoreOutcome>, path: string, o: RestoreOutcome)
    requires SafePaths(steps) && IsTable(steps, backups) && rest <= backups.Keys && path in rest
    requires Restoring(backups, rest, before, mid, outcomes)
    ensures Restoring(backups, rest - {path}, before, RestoreEffect(mid, path, o), outcomes[path := o])
  {
    hide SafePaths, RestoreEffect, Backup;
    RestoreAlike(before, mid, path, o);
    forall p | p in backups && p != path
      ensures SameAt(mid, RestoreEffect(mid, path, o), p) && SameAt(mid, RestoreEffect(mid, path, o), Backup(p))
    {
      PathsApart(steps, p, path);
      RestoreElsewhere(mid, path, o, p);
      RestoreElsewhere(mid, path, o, Backup(p));
    }
  }

  lemma NothingRestored(backups: map<string, string>, files: Files)
    ensures Restoring(backups, backups.Keys, files, files, map[])
  {
  }

  lemma StillToRestore(backups: map<string, string>, rest: set<string>, before: Files, mid: Files,
                       outcomes: map<string, RestoreOutcome>, path: string)
    requires Restoring(backups, rest, before, mid, outcomes) && path in rest
    ensures SameAt(before, mid, Backup(path))
  {
  }

  lemma PathsApart(steps: seq<Step>, p: string, q: string)
    requires SafePaths(steps) && IsConfig(steps, p) && IsConfig(steps, q) && p != q
    ensures p != Backup(q) && Backup(p) != q && Backup(p) != Backup(q)
  {
    ConfigAndBackup(steps, p);
    ConfigAndBackup(steps, q);
    if Backup(p) == Backup(q) {
      BackupInjective(p, q);
    }
  }

  // Where the backup held the original and the restore kept it, the original stands.
  lemma OriginalsStand(backups: map<string, string>, original: Files, before: Files, after: Files,
                       outcomes: map<string, RestoreOutcome>, p: string)
    requires HoldsOriginals(backups, before, original) && Restoring(backups, {}, before, after, outcomes)
    requires p in backups && Keeps(outcomes[p])
    ensures StandsAt(after, p, original[p])
  {
    RestoreKeepsExactlyWhen(before, p, outcomes[p]);
  }

  lemma ConfigAndBackup(steps: seq<Step>, path: string)
    requires IsConfig(steps, path)
    ensures IsBackup(steps, Backup(path)) && path != Backup(path)
  {
    assert |path| < |Backup(path)|;
  }

  // No file of `before` outside the given paths has changed.
  ghost predicate OthersKept(before: Files, after: Files, touched: iset<string>) {
    forall p :: p in before && p !in touched ==> p in after && after[p] == before[p]
  }

  ghost function Touched(steps: seq<Step>): iset<string> {
    iset p | IsConfig(steps, p) || IsBackup(steps, p)
  }

  ghost function BackupNames(steps: seq<Step>): iset<string> {
    iset p | IsBackup(steps, p)
  }

  ghost predicate AllClean(outcomes: map<string, RestoreOutcome>) {
    forall p :: p in outcomes ==> Clean(outcomes[p])
  }

  lemma CleanRestores(backups: map<string, string>, original: Files, before: Files, after: Files,
                      outcomes: map<string, RestoreOutcome>, p: string)
    requires HoldsOriginals(backups, before, original) && Restoring(backups, {}, before, after, outcomes)
    requires p in backups && Clean(outcomes[p])
    ensures p in after && after[p] == original[p] && Backup(p) !in after
  {
    assert |p| < |Backup(p)|;
    assert RestoredBy(before, after, p, outcomes[p]);
  }

  // Restoring cleanly from a table that covers every path there was brings every original back.
  lemma RestoredOriginals(steps: seq<Step>, backups: map<string, string>, original: Files, before: Files, after: Files,
                          outcomes: map<string, RestoreOutcome>)
    requires HoldsOriginals(backups, before, original) && Restoring(backups, {}, before, after, outcomes)
    requires AllClean(outcomes) && Covers(steps, backups, original)
    requires OthersKept(original, before, Touched(steps)) && SameOutside(steps, before, after)
    ensures OthersKept(original, after, BackupNames(steps))
    ensures BackupsGone(steps, original, after)
  {
    hide HoldsOriginals, Restoring, Clean;
    forall p | p in backups
      ensures p in after && p in original && after[p] == original[p] && Backup(p) !in after
    {
      HeldOriginal(backups, before, original, p);
      assert p in outcomes by {
        OutcomeOf(backups, before, after, outcomes, p);
      }
      CleanRestores(backups, original, before, after, outcomes, p);
    }
  }

  lemma OriginalsAreHeld(backups: map<string, string>, files: Files, original: Files)
    requires HoldsOriginals(backups, files, original)
    ensures AllHeld(backups, files)
  {
  }

  lemma HeldOriginal(backups: map<string, string>, files: Files, original: Files, p: string)
    requires HoldsOriginals(backups, files, original) && p in backups
    ensures p in original
  {
  }

  lemma OutcomeOf(backups: map<string, string>, before: Files, after: Files, outcomes: map<string, RestoreOutcome>,
                  p: string)
    requires Restoring(backups, {}, before, after, outcomes) && p in backups
    ensures p in outcomes
  {
  }

  // No backup of a path there was is left.
  ghost predicate BackupsGone(steps: seq<Step>, original: Files, files: Files) {
    forall s :: s in steps && s.configPath in original ==> Backup(s.configPath) !in files
  }

  ghost predicate Covers(steps: seq<Step>, backups: map<string, string>, original: Files) {
    forall s :: s in steps && s.configPath in original ==> s.configPath in backups
  }

  ghost predicate AllWritten(steps: seq<Step>, cfg: SiteConfig, files: Files) {
    forall s :: s in steps ==>
      s.configPath in files && s.render(cfg).Some? && files[s.configPath] == s.render(cfg).value
  }

  // The state of the backup loop after the first i steps.
  ghost predicate Backing(steps: seq<Step>, i: nat, backups: map<string, string>, original: Files, files: Files)
    requires i <= |steps|
  {
    && IsTable(steps[..i], backups)
    && (forall p :: !IsBackup(steps, p) ==> SameAt(original, files, p))
    && (SafePaths(steps) ==> HoldsOriginals(backups, files, original))
  }

  // How one call of backupFile may leave the table and the files.
  ghost predicate BackedUp(path: string, backups: map<string, string>, before: Files, after: Files, saved: bool,
                           backups': map<string, string>)
  {
    && (forall p :: p != Backup(path) ==> SameAt(before, after, p))
    && (saved ==> path in before && Backup(path) in after && after[Backup(path)] == before[path])
    && backups' == if saved then backups[path := Backup(path)] else backups
  }

  lemma BackingStep(steps: seq<Step>, i: nat, backups: map<string, string>, original: Files, before: Files,
                    after: Files, saved: bool, backups': map<string, string>)
    requires i < |steps| && Backing(steps, i, backups, original, before)
    requires BackedUp(steps[i].configPath, backups, before, after, saved, backups')
    ensures Backing(steps, i + 1, backups', original, after)
  {
    hide SafePaths, IsBackup;
    var path := steps[i].configPath;
    StepPath(steps, i);
    assert steps[..i + 1] == steps[..i] + [steps[i]];
    forall p | !IsBackup(steps, p)
      ensures SameAt(original, after, p)
    {
      assert SameAt(original, before, p) && p != Backup(path) && SameAt(before, after, p);
    }
    if SafePaths(steps) {
      SafeStepPath(steps, i);
      assert SameAt(original, before, path);
      forall p | p in backups
        ensures Backup(p) != Backup(path) && SameAt(before, after, Backup(p))
      {
        if Backup(p) == Backup(path) {
          BackupInjective(p, path);
        }
      }
    }
  }

  lemma StepPath(steps: seq<Step>, i: nat)
    requires i < |steps|
    ensures IsConfig(steps, steps[i].configPath) && IsConfig(steps[..i + 1], steps[i].configPath)
    ensures IsBackup(steps, Backup(steps[i].configPath))
  {
    assert steps[..i + 1][i] == steps[i] && steps[i] in steps;
  }

  lemma SafeStepPath(steps: seq<Step>, i: nat)
    requires i < |steps| && SafePaths(steps)
    ensures !IsBackup(steps, steps[i].configPath) && !IsConfig(steps[..i], steps[i].configPath)
  {
    assert steps[i] in steps;
  }

  lemma CoversStep(steps: seq<Step>, i: nat, backups: map<string, string>, original: Files, before: Files,
                   after: Files, saved: bool, backups': map<string, string>)
    requires i < |steps| && SafePaths(steps) && Backing(steps, i, backups, original, before)
    requires BackedUp(steps[i].configPath, backups, before, after, saved, backups')
    requires Covers(steps[..i], backups, original) && (saved <==> steps[i].configPath in before)
    ensures Covers(steps[..i + 1], backups', original)
  {
    SafeStepPath(steps, i);
    assert SameAt(original, before, steps[i].configPath);
    assert steps[..i + 1] == steps[..i] + [steps[i]];
  }

  lemma NothingBacked(steps: seq<Step>, files: Files)
    ensures Backing(steps, 0, map[], files, files) && Covers(steps[..0], map[], files)
  {
  }

  lemma AllBacked(steps: seq<Step>, backups: map<string, string>, original: Files, files: Files)
    requires Backing(steps, |steps|, backups, original, files)
    ensures IsTable(steps, backups) && OthersKept(original, files, BackupNames(steps))
    ensures SafePaths(steps) ==> HoldsOriginals(backups, files, original)
    ensures Covers(steps[..|steps|], backups, original) ==> Covers(steps, backups, original)
  {
    assert steps[..|steps|] == steps;
  }

  // The files while steps run: backups and other files are intact, and the first i steps have written theirs.
  ghost predicate Underway(steps: seq<Step>, i: nat, cfg: SiteConfig, backups: map<string, string>, original: Files,
                           files: Files)
    requires i <= |steps|
  {
    && OthersKept(original, files, Touched(steps))
    && (SafePaths(steps) ==> HoldsOriginals(backups, files, original) && AllWritten(steps[..i], cfg, files))
  }

  // Writing a configuration path disturbs no backup and no earlier step; with its content there, the step is done.
  lemma StepStaysUnderway(steps: seq<Step>, i: nat, cfg: SiteConfig, backups: map<string, string>, original: Files,
                          before: Files, after: Files)
    requires i < |steps| && IsTable(steps, backups) && Underway(steps, i, cfg, backups, original, before)
    requires OthersKept(before, after, iset{steps[i].configPath})
    ensures Underway(steps, i, cfg, backups, original, after)
    ensures AllWritten([steps[i]], cfg, after) ==> Underway(steps, i + 1, cfg, backups, original, after)
  {
    hide SafePaths, HoldsOriginals, AllWritten;
    var path := steps[i].configPath;
    assert steps[i] in steps && IsConfig(steps, path);
    if SafePaths(steps) {
      BackupsStay(steps, backups, original, before, after, path);
      WrittenStay(steps, i, cfg, before, after);
    }
  }

  lemma BackupsStay(steps: seq<Step>, backups: map<string, string>, original: Files, before: Files, after: Files,
                    path: string)
    requires SafePaths(steps) && IsConfig(steps, path) && IsTable(steps, backups)
    requires HoldsOriginals(backups, before, original) && OthersKept(before, after, iset{path})
    ensures HoldsOriginals(backups, after, original)
  {
    forall p | p in backups
      ensures Backup(p) != path
    {
      ConfigAndBackup(steps, p);
    }
  }

  lemma WrittenStay(steps: seq<Step>, i: nat, cfg: SiteConfig, before: Files, after: Files)
    requires SafePaths(steps) && i < |steps| && AllWritten(steps[..i], cfg, before)
    requires OthersKept(before, after, iset{steps[i].configPath})
    ensures AllWritten(steps[..i], cfg, after)
    ensures AllWritten([steps[i]], cfg, after) ==> AllWritten(steps[..i + 1], cfg, after)
  {
    assert steps[..i + 1] == steps[..i] + [steps[i]];
    assert steps[i] in [steps[i]];
  }

  // Removing the backups at the end leaves what was written and everything else.
  lemma FinishedRun(steps: seq<Step>, cfg: SiteConfig, backups: map<string, string>, original: Files, before: Files,
                    after: Files)
    requires Underway(steps, |steps|, cfg, backups, original, before)
    requires forall p :: !IsBackup(steps, p) ==> SameAt(before, after, p)
    ensures OthersKept(original, after, Touched(steps))
    ensures SafePaths(steps) ==> AllWritten(steps, cfg, after)
  {
    assert steps[..|steps|] == steps;
  }

  lemma TableGone(steps: seq<Step>, backups: map<string, string>, original: Files, after: Files)
    requires Covers(steps, backups, original)
    requires forall p :: p in backups ==> Backup(p) !in after
    ensures BackupsGone(steps, original, after)
  {
  }

  /* ---------- Calls to services ---------- */

  // A call, with what the step's configuration file held when it was made.
  datatype Call = ApplySysctl(path: string, live: string) | Reload(service: string, live: string)

  class Services {
    var calls: seq<Call>
    ghost var failures: nat

    constructor ()
      ensures calls == [] && failures == 0
    {
      calls := [];
      failures := 0;
    }

    method Invoke(call: Call) returns (ok: bool)
      modifies this
      ensures calls == old(calls) + [call]
      ensures failures >= old(failures) && (ok <==> failures == old(failures))
    {
      calls := calls + [call];
      ok := *;
      if !ok {
        failures := failures + 1;
      }
    }
  }

  // The calls of a step that completes or fails for the given cause: each after its own rendered file is in place.
  function StepCalls(s: Step, reloads: bool, cfg: SiteConfig, cause: Option<Cause>): seq<Call> {
    var live := s.render(cfg);
    if live.None? || cause == Some(WriteError) then []
    else
      var sysctl := if s.name == "sysctl" then [ApplySysctl(s.configPath, live.value)] else [];
      if cause == Some(SysctlError) || s.service == "" || !reloads then sysctl
      else sysctl + [Reload(s.service, live.value)]
  }

  function CompletedCalls(steps: seq<Step>, reloads: bool, cfg: SiteConfig): seq<Call> {
    if steps == [] then []
    else
      CompletedCalls(steps[..|steps| - 1], reloads, cfg) + StepCalls(steps[|steps| - 1], reloads, cfg, None)
  }

  /* What the calls of a run are, step by step: `who[k]` is the step that made call k. */

  ghost predicate MadeBy(s: Step, reloads: bool, cfg: SiteConfig, call: Call) {
    && s.render(cfg).Some?
    && match call
       case ApplySysctl(path, live) => s.name == "sysctl" && path == s.configPath && live == s.render(cfg).value
       case Reload(service, live) => s.service != "" && reloads && service == s.service && live == s.render(cfg).value
  }

  ghost predicate Applied(calls: seq<Call>, who: seq<nat>, i: nat) {
    |who| == |calls| && exists k :: 0 <= k < |who| && who[k] == i && calls[k].ApplySysctl?
  }

  ghost predicate Reloaded(calls: seq<Call>, who: seq<nat>, i: nat) {
    |who| == |calls| && exists k :: 0 <= k < |who| && who[k] == i && calls[k].Reload?
  }

  // Each call is one of its step's own, made with its rendered file in place; earlier steps call first, and a step
  // applies sysctl before it reloads, neither twice.
  ghost predicate InOrder(steps: seq<Step>, reloads: bool, cfg: SiteConfig, calls: seq<Call>, who: seq<nat>) {
    && |who| == |calls|
    && (forall k :: 0 <= k < |who| ==> who[k] < |steps| && MadeBy(steps[who[k]], reloads, cfg, calls[k]))
    && (forall j, k :: 0 <= j < k < |who| ==>
          who[j] < who[k] || (who[j] == who[k] && calls[j].ApplySysctl? && calls[k].Reload?))
  }

  // The first n steps have made all their calls, and the failing one those up to its failure, which is the last.
  ghost predicate CallsMade(steps: seq<Step>, reloads: bool, cfg: SiteConfig, calls: seq<Call>, who: seq<nat>, n: nat,
                            cause: Option<Cause>)
    requires n <= |steps|
  {
    && InOrder(steps, reloads, cfg, calls, who)
    && (forall k :: 0 <= k < |who| ==>
          who[k] < n || (who[k] == n && (cause == Some(SysctlError) || cause == Some(ReloadError))))
    && (forall i :: 0 <= i < n && steps[i].name == "sysctl" ==> Applied(calls, who, i))
    && (forall i :: 0 <= i < n && steps[i].service != "" && reloads ==> Reloaded(calls, who, i))
    && (cause == Some(SysctlError) ==> calls != [] && calls[|calls| - 1].ApplySysctl? && who[|who| - 1] == n)
    && (cause == Some(ReloadError) ==>
          && calls != [] && calls[|calls| - 1].Reload? && who[|who| - 1] == n
          && (n < |steps| && steps[n].name == "sysctl" ==> Applied(calls, who, n)))
  }

  // A step that fails for a cause, or completes, gives it reason to.
  ghost predicate CauseFits(s: Step, reloads: bool, cfg: SiteConfig, cause: Option<Cause>) {
    && (cause == Some(RenderError) <==> s.render(cfg).None?)
    && cause != Some(VlanError)
    && (cause == Some(SysctlError) ==> s.name == "sysctl")
    && (cause == Some(ReloadError) ==> s.service != "" && reloads)
  }

  lemma StepOwners(n: nat, calls: seq<Call>) returns (who: seq<nat>)
    ensures |who| == |calls| && forall k :: 0 <= k < |who| ==> who[k] == n
  {
    who := seq(|calls|, _ => n);
  }

  lemma StepMade(steps: seq<Step>, reloads: bool, cfg: SiteConfig, n: nat, cause: Option<Cause>, own: seq<nat>)
    requires n < |steps| && CauseFits(steps[n], reloads, cfg, cause)
    requires var mine := StepCalls(steps[n], reloads, cfg, cause);
             |own| == |mine| && forall k :: 0 <= k < |own| ==> own[k] == n
    ensures var mine := StepCalls(steps[n], reloads, cfg, cause);
            && InOrder(steps, reloads, cfg, mine, own)
            && (mine != [] ==> cause == None || cause == Some(SysctlError) || cause == Some(ReloadError))
            && (cause == None && steps[n].name == "sysctl" ==> Applied(mine, own, n))
            && (cause == None && steps[n].service != "" && reloads ==> Reloaded(mine, own, n))
            && (cause == Some(SysctlError) ==> mine != [] && mine[|mine| - 1].ApplySysctl?)
            && (cause == Some(ReloadError) ==>
                  mine != [] && mine[|mine| - 1].Reload? && (steps[n].name == "sysctl" ==> Applied(mine, own, n)))
  {
    var mine := StepCalls(steps[n], reloads, cfg, cause);
    if mine != [] {
      assert own[0] == n && own[|own| - 1] == n;
      assert cause != Some(RenderError) && cause != Some(WriteError) && cause != Some(VlanError);
      assert cause.Some? ==> cause.value.SysctlError? || cause.value.ReloadError?;
    }
  }

  lemma InOrderConcat(steps: seq<Step>, reloads: bool, cfg: SiteConfig, a: seq<Call>, who: seq<nat>, b: seq<Call>,
                      own: seq<nat>, n: nat)
    requires InOrder(steps, reloads, cfg, a, who) && InOrder(steps, reloads, cfg, b, own)
    requires (forall k :: 0 <= k < |who| ==> who[k] < n) && (forall k :: 0 <= k < |own| ==> own[k] == n)
    ensures InOrder(steps, reloads, cfg, a + b, who + own)
    ensures forall i: nat :: Applied(a, who, i) || Applied(b, own, i) ==> Applied(a + b, who + own, i)
    ensures forall i: nat :: Reloaded(a, who, i) || Reloaded(b, own, i) ==> Reloaded(a + b, who + own, i)
  {
    hide MadeBy;
    var calls, all := a + b, who + own;
    forall i: nat | Applied(a, who, i) || Applied(b, own, i)
      ensures Applied(calls, all, i)
    {
      if k :| 0 <= k < |who| && who[k] == i && a[k].ApplySysctl? {
        assert all[k] == i && calls[k].ApplySysctl?;
      } else {
        var k :| 0 <= k < |own| && own[k] == i && b[k].ApplySysctl?;
        assert all[|a| + k] == i && calls[|a| + k].ApplySysctl?;
      }
    }
    forall i: nat | Reloaded(a, who, i) || Reloaded(b, own, i)
      ensures Reloaded(calls, all, i)
    {
      if k :| 0 <= k < |who| && who[k] == i && a[k].Reload? {
        assert all[k] == i && calls[k].Reload?;
      } else {
        var k :| 0 <= k < |own| && own[k] == i && b[k].Reload?;
        assert all[|a| + k] == i && calls[|a| + k].Reload?;
      }
    }
  }

  // One more step, completed or failing.
  lemma StepAdds(steps: seq<Step>, reloads: bool, cfg: SiteConfig, calls: seq<Call>, who: seq<nat>, n: nat,
                 cause: Option<Cause>) returns (all: seq<nat>)
    requires n < |steps| && CauseFits(steps[n], reloads, cfg, cause)
    requires CallsMade(steps, reloads, cfg, calls, who, n, None)
    ensures CallsMade(steps, reloads, cfg, calls + StepCalls(steps[n], reloads, cfg, cause), all,
                      if cause.None? then n + 1 else n, cause)
  {
    hide StepCalls, InOrder, Applied, Reloaded;
    var mine := StepCalls(steps[n], reloads, cfg, cause);
    var own := StepOwners(n, mine);
    StepMade(steps, reloads, cfg, n, cause, own);
    MadeLength(steps, reloads, cfg, calls, who);
    InOrderConcat(steps, reloads, cfg, calls, who, mine, own, n);
    all := who + own;
  }

  lemma MadeLength(steps: seq<Step>, reloads: bool, cfg: SiteConfig, calls: seq<Call>, who: seq<nat>)
    requires InOrder(steps, reloads, cfg, calls, who)
    ensures |calls| == |who|
  {
  }

  lemma {:induction false} CompletedMade(steps: seq<Step>, reloads: bool, cfg: SiteConfig, n: nat)
    returns (who: seq<nat>)
    requires n <= |steps| && forall i :: 0 <= i < n ==> steps[i].render(cfg).Some?
    ensures CallsMade(steps, reloads, cfg, CompletedCalls(steps[..n], reloads, cfg), who, n, None)
  {
    hide StepCalls;
    if n == 0 {
      who := [];
    } else {
      who := CompletedMade(steps, reloads, cfg, n - 1);
      assert steps[..n][..n - 1] == steps[..n - 1];
      who := StepAdds(steps, reloads, cfg, CompletedCalls(steps[..n - 1], reloads, cfg), who, n - 1, None);
    }
  }

  lemma ConcatAssociates(a: seq<Call>, b: seq<Call>, c: seq<Call>)
    ensures a + b + c == a + (b + c)
  {
  }

  /* ---------- The pipeline ---------- */

  class Pipeline {
    const steps: seq<Step>
    const reloads: bool
    const fs: FileSystem
    const host: VLAN.Host
    const services: Services

    constructor (steps: seq<Step>, reloads: bool, fs: FileSystem, host: VLAN.Host, services: Services)
      ensures this.steps == steps && this.reloads == reloads && this.fs == fs && this.host == host
      ensures this.services == services
    {
      this.steps := steps;
      this.reloads := reloads;
      this.fs := fs;
      this.host := host;
      this.services := services;
    }

    method BackupFile(path: string) returns (backup: Option<string>)
      modifies fs`files, fs`lost
      ensures fs.lost >= old(fs.lost)
      ensures backup.Some? ==> path in old(fs.files) && backup.value == Backup(path)
      ensures backup.Some? ==> fs.files == old(fs.files)[Backup(path) := old(fs.files)[path]]
      ensures fs.lost == old(fs.lost) ==> (backup.Some? <==> path in old(fs.files))
      ensures forall p :: p != Backup(path) ==> (p in fs.files <==> p in old(fs.files))
      ensures forall p :: p != Backup(path) && p in fs.files ==> fs.files[p] == old(fs.files)[p]
    {
      var r := fs.Read(path);
      if !r.Content? {
        return None;
      }
      var ok := fs.Write(Backup(path), r.data);
      backup := if ok then Some(Backup(path)) else None;
    }

    method BackUpAll() returns (backups: map<string, string>)
      modifies fs`files, fs`lost
      ensures fs.lost >= old(fs.lost)
      ensures IsTable(steps, backups)
      ensures OthersKept(old(fs.files), fs.files, BackupNames(steps))
      ensures SafePaths(steps) ==> HoldsOriginals(backups, fs.files, old(fs.files))
      ensures SafePaths(steps) && fs.lost == old(fs.lost) ==> Covers(steps, backups, old(fs.files))
    {
      hide Backing, SafePaths, Covers;
      backups := map[];
      NothingBacked(steps, fs.files);
      for i := 0 to |steps|
        invariant fs.lost >= old(fs.lost)
        invariant Backing(steps, i, backups, old(fs.files), fs.files)
        invariant SafePaths(steps) && fs.lost == old(fs.lost) ==> Covers(steps[..i], backups, old(fs.files))
      {
        ghost var before, soFar := fs.files, backups;
        var backup := BackupFile(steps[i].configPath);
        if backup.Some? {
          backups := backups[steps[i].configPath := backup.value];
        }
        assert BackedUp(steps[i].configPath, soFar, before, fs.files, backup.Some?, backups);
        BackingStep(steps, i, soFar, old(fs.files), before, fs.files, backup.Some?, backups);
        if SafePaths(steps) && fs.lost == old(fs.lost) {
          CoversStep(steps, i, soFar, old(fs.files), before, fs.files, backup.Some?, backups);
        }
      }
      AllBacked(steps, backups, old(fs.files), fs.files);
    }

    // One turn of restoreBackups.
    method RestoreOne(path: string) returns (ghost o: RestoreOutcome)
      modifies fs`files, fs`lost
      ensures fs.lost >= old(fs.lost)
      ensures fs.files == RestoreEffect(old(fs.files), path, o)
      ensures fs.lost == old(fs.lost) && Backup(path) in old(fs.files) ==> Clean(o)
    {
      o := RestoreOutcome(false, Untouched, false);
      assert |path| < |Backup(path)|;
      var r := fs.Read(Backup(path));
      if !r.Content? {
        return;
      }
      var ok := fs.Write(path, r.data);
      o := RestoreOutcome(true, if ok then Wrote else if fs.files == old(fs.files) then Untouched
                                else TornTo(fs.files[path]), false);
      fs.Remove(Backup(path));
      o := o.(removed := Backup(path) !in fs.files);
    }

    // restoreBackups: best effort, in any order.
    method RestoreBackups(backups: map<string, string>) returns (ghost outcomes: map<string, RestoreOutcome>)
      requires IsTable(steps, backups)
      modifies fs`files, fs`lost
      ensures fs.lost >= old(fs.lost)
      ensures SameOutside(steps, old(fs.files), fs.files)
      ensures outcomes.Keys == backups.Keys
      ensures SafePaths(steps) ==> Restoring(backups, {}, old(fs.files), fs.files, outcomes)
      ensures SafePaths(steps) && AllHeld(backups, old(fs.files)) && fs.lost == old(fs.lost) ==> AllClean(outcomes)
    {
      hide SafePaths, Clean, Restoring;
      var rest := backups.Keys;
      outcomes := map[];
      NothingRestored(backups, fs.files);
      while rest != {}
        invariant rest <= backups.Keys && outcomes.Keys == backups.Keys - rest
        invariant fs.lost >= old(fs.lost)
        invariant SameOutside(steps, old(fs.files), fs.files)
        invariant SafePaths(steps) ==> Restoring(backups, rest, old(fs.files), fs.files, outcomes)
        invariant SafePaths(steps) && AllHeld(backups, old(fs.files)) && fs.lost == old(fs.lost) ==> AllClean(outcomes)
        decreases rest
      {
        var path :| path in rest;
        ConfigAndBackup(steps, path);
        ghost var mid := fs.files;
        ghost var o := RestoreOne(path);
        if SafePaths(steps) {
          StillToRestore(backups, rest, old(fs.files), mid, outcomes, path);
          RestoreStep(steps, backups, rest, old(fs.files), mid, outcomes, path, o);
        }
        outcomes := outcomes[path := o];
        rest := rest - {path};
      }
    }

    // The last loop of Execute: the backups go, in any order.
    method RemoveBackups(backups: map<string, string>)
      requires IsTable(steps, backups)
      modifies fs`files, fs`lost
      ensures fs.lost >= old(fs.lost)
      ensures forall p :: !IsBackup(steps, p) ==> SameAt(old(fs.files), fs.files, p)
      ensures fs.lost == old(fs.lost) ==> forall p :: p in backups ==> Backup(p) !in fs.files
    {
      var rest := backups.Keys;
      while rest != {}
        invariant rest <= backups.Keys
        invariant fs.lost >= old(fs.lost)
        invariant forall p :: !IsBackup(steps, p) ==> SameAt(old(fs.files), fs.files, p)
        invariant fs.lost == old(fs.lost) ==> forall p :: p in backups && p !in rest ==> Backup(p) !in fs.files
        decreases rest
      {
        var configPath :| configPath in rest;
        rest := rest - {configPath};
        ConfigAndBackup(steps, configPath);
        fs.Remove(backups[configPath]);
      }
    }

    // A write error comes from a write, a sysctl or reload error from a service call; nothing else is counted.
    ghost predicate Blamed(writes: nat, calls: nat, cause: Option<Cause>)
      reads fs, services
    {
      && fs.refused >= writes && services.failures >= calls
      && (cause == Some(WriteError) <==> fs.refused != writes)
      && ((cause == Some(SysctlError) || cause == Some(ReloadError)) <==> services.failures != calls)
    }

    // One turn of the main loop, up to the point where the step counts as completed.
    method RunStep(s: Step, cfg: SiteConfig) returns (cause: Option<Cause>)
      modifies fs`files, fs`refused, services
      ensures CauseFits(s, reloads, cfg, cause)
      ensures cause.None? ==> fs.files == old(fs.files)[s.configPath := s.render(cfg).value]
      ensures OthersKept(old(fs.files), fs.files, iset{s.configPath})
      ensures services.calls == old(services.calls) + StepCalls(s, reloads, cfg, cause)
      ensures Blamed(old(fs.refused), old(services.failures), cause)
    {
      var content := s.render(cfg);
      if content.None? {
        return Some(RenderError);
      }
      var ok := fs.AtomicWrite(s.configPath, content.value);
      if !ok {
        return Some(WriteError);
      }
      if s.name == "sysctl" {
        ok := services.Invoke(ApplySysctl(s.configPath, fs.files[s.configPath]));
        if !ok {
          return Some(SysctlError);
        }
      }
      if s.service != "" && reloads {
        ok := services.Invoke(Reload(s.service, fs.files[s.configPath]));
        if !ok {
          return Some(ReloadError);
        }
      }
      cause := None;
    }

    // The calls of a run that completes n steps and then ends or fails.
    function RunCalls(n: nat, cause: Option<Cause>, cfg: SiteConfig): seq<Call>
      requires n <= |steps| && (cause.Some? ==> n < |steps|)
    {
      CompletedCalls(steps[..n], reloads, cfg)
      + if cause.Some? then StepCalls(steps[n], reloads, cfg, cause) else []
    }

    // Those are the calls that the steps owe, in order.
    lemma RunMade(n: nat, cause: Option<Cause>, cfg: SiteConfig) returns (who: seq<nat>)
      requires n <= |steps| && forall i :: 0 <= i < n ==> steps[i].render(cfg).Some?
      requires cause.Some? ==> n < |steps| && CauseFits(steps[n], reloads, cfg, cause)
      ensures CallsMade(steps, reloads, cfg, RunCalls(n, cause, cfg), who, n, cause)
    {
      hide StepCalls, CompletedCalls, CallsMade, CauseFits;
      who := CompletedMade(steps, reloads, cfg, n);
      if cause.Some? {
        who := StepAdds(steps, reloads, cfg, CompletedCalls(steps[..n], reloads, cfg), who, n, cause);
      } else {
        assert RunCalls(n, cause, cfg) == CompletedCalls(steps[..n], reloads, cfg);
      }
    }

    // The main loop of Execute, which stops at the first step that fails.
    method RunAll(cfg: SiteConfig, ghost backups: map<string, string>, ghost original: Files)
      returns (completed: seq<string>, cause: Option<Cause>)
      requires IsTable(steps, backups) && Underway(steps, 0, cfg, backups, original, fs.files)
      modifies fs`files, fs`refused, services
      ensures |completed| <= |steps| && completed == Names(steps[..|completed|])
      ensures Underway(steps, |completed|, cfg, backups, original, fs.files)
      ensures forall i :: 0 <= i < |completed| ==> steps[i].render(cfg).Some?
      ensures cause.None? ==> |completed| == |steps|
      ensures cause.Some? ==> |completed| < |steps| && CauseFits(steps[|completed|], reloads, cfg, cause)
      ensures services.calls == old(services.calls) + RunCalls(|completed|, cause, cfg)
      ensures Blamed(old(fs.refused), old(services.failures), cause)
    {
      hide Underway, StepCalls;
      completed := [];
      for i := 0 to |steps|
        invariant completed == Names(steps[..i])
        invariant forall j :: 0 <= j < i ==> steps[j].render(cfg).Some?
        invariant Underway(steps, i, cfg, backups, original, fs.files)
        invariant services.calls == old(services.calls) + CompletedCalls(steps[..i], reloads, cfg)
        invariant fs.refused == old(fs.refused) && services.failures == old(services.failures)
      {
        assert steps[..i + 1][..i] == steps[..i];
        ghost var before := fs.files;
        cause := RunStep(steps[i], cfg);
        ConcatAssociates(
          old(services.calls), CompletedCalls(steps[..i], reloads, cfg), StepCalls(steps[i], reloads, cfg, cause));
        StepStaysUnderway(steps, i, cfg, backups, original, before, fs.files);
        if cause.Some? {
          return;
        }
        completed := completed + [steps[i].name];
      }
      assert steps[..|steps|] == steps;
      cause := None;
    }

    /**
     Execute. The completed steps are exactly those before the failed one. When backups and restores work, a failure
     leaves every file that was there, backup names apart, with its original content; a success leaves every
     configuration path with its rendered content and no backup of this run. Whatever fails, an original that was
     backed up stands at its path or under its backup name unless restoring it failed to write and removed the backup.
     */
    method Execute(cfg: SiteConfig) returns (result: Result, ghost outcomes: map<string, RestoreOutcome>)
      modifies fs, host, services
      ensures |result.completed| <= |steps| && result.completed == Names(steps[..|result.completed|])
      ensures result.err.None? ==> |result.completed| == |steps| && result.failed == ""
      ensures result.err == Some(VlanError) ==>
                result.completed == [] && result.failed == "vlan" && fs.files == old(fs.files)
      ensures result.err.Some? && result.err != Some(VlanError) ==>
                |result.completed| < |steps| && result.failed == steps[|result.completed|].name
      ensures forall i :: 0 <= i < |result.completed| ==> steps[i].render(cfg).Some?
      ensures result.err == Some(VlanError) ==> services.calls == old(services.calls)
      ensures result.err != Some(VlanError) ==>
                services.calls == old(services.calls) + RunCalls(|result.completed|, result.err, cfg)
      ensures result.err != Some(VlanError) ==>
                && old(services.calls) <= services.calls
                && exists who :: CallsMade(steps, reloads, cfg, services.calls[|old(services.calls)|..], who,
                                           |result.completed|, result.err)
      ensures result.err.Some? && result.err != Some(VlanError) ==>
                CauseFits(steps[|result.completed|], reloads, cfg, result.err)
      ensures Blamed(old(fs.refused), old(services.failures), result.err) && host.failures >= old(host.failures)
      ensures host.failures == old(host.failures) ==>
                (result.err == Some(VlanError) <==> !VLAN.AllHaveParents(cfg.interfaces))
      ensures result.err != Some(VlanError) && host.failures == old(host.failures)
              && VLAN.NothingOnStale(old(host.links), VLAN.Desired(cfg.interfaces)) ==>
                host.links == VLAN.Reconciled(old(host.links), cfg.interfaces)
      ensures OthersKept(old(fs.files), fs.files, Touched(steps))
      ensures SafePaths(steps) && result.err.Some? && fs.lost == old(fs.lost) ==>
                OthersKept(old(fs.files), fs.files, BackupNames(steps))
      ensures SafePaths(steps) && result.err.None? ==> AllWritten(steps, cfg, fs.files)
      ensures SafePaths(steps) && fs.lost == old(fs.lost) && result.err != Some(VlanError) ==>
                BackupsGone(steps, old(fs.files), fs.files)
      ensures SafePaths(steps) ==>
                forall p :: p in outcomes ==>
                  p in old(fs.files) && (Keeps(outcomes[p]) ==> StandsAt(fs.files, p, old(fs.files)[p]))
    {
      hide SafePaths, HoldsOriginals, Keeps, StandsAt, BackupsGone, IsTable, StepCalls, CompletedCalls, CallsMade;
      outcomes := map[];
      var provisioned := host.ProvisionVLANs(cfg.interfaces);
      if !provisioned {
        return Result([], "vlan", Some(VlanError)), outcomes;
      }
      var backups := BackUpAll();
      var completed, cause := RunAll(cfg, backups, old(fs.files));
      ghost var who := RunMade(|completed|, cause, cfg);
      assert services.calls[|old(services.calls)|..] == RunCalls(|completed|, cause, cfg);
      if cause.Some? {
        outcomes := UndoAll(cfg, backups, old(fs.files), |completed|);
        return Result(completed, steps[|completed|].name, cause), outcomes;
      }
      FinishAll(cfg, backups, old(fs.files));
      result := Result(completed, "", None);
    }

    // The end of a run whose step n failed.
    method UndoAll(cfg: SiteConfig, backups: map<string, string>, ghost original: Files, ghost n: nat)
      returns (ghost outcomes: map<string, RestoreOutcome>)
      requires IsTable(steps, backups) && n <= |steps| && Underway(steps, n, cfg, backups, original, fs.files)
      modifies fs`files, fs`lost
      ensures fs.lost >= old(fs.lost)
      ensures OthersKept(original, fs.files, Touched(steps))
      ensures SafePaths(steps) && Covers(steps, backups, original) && fs.lost == old(fs.lost) ==>
                OthersKept(original, fs.files, BackupNames(steps)) && BackupsGone(steps, original, fs.files)
      ensures SafePaths(steps) ==>
                forall p :: p in outcomes ==>
                  p in original && (Keeps(outcomes[p]) ==> StandsAt(fs.files, p, original[p]))
    {
      hide SafePaths, HoldsOriginals, Restoring, AllClean, Covers, Keeps, StandsAt;
      ghost var before := fs.files;
      if SafePaths(steps) {
        OriginalsAreHeld(backups, before, original);
      }
      outcomes := RestoreBackups(backups);
      if SafePaths(steps) {
        forall p | p in outcomes
          ensures p in original && (Keeps(outcomes[p]) ==> StandsAt(fs.files, p, original[p]))
        {
          HeldOriginal(backups, before, original, p);
          if Keeps(outcomes[p]) {
            OriginalsStand(backups, original, before, fs.files, outcomes, p);
          }
        }
        if Covers(steps, backups, original) && fs.lost == old(fs.lost) {
          RestoredOriginals(steps, backups, original, before, fs.files, outcomes);
        }
      }
    }

    // The end of a run that completed.
    method FinishAll(cfg: SiteConfig, backups: map<string, string>, ghost original: Files)
      requires IsTable(steps, backups) && Underway(steps, |steps|, cfg, backups, original, fs.files)
      modifies fs`files, fs`lost
      ensures fs.lost >= old(fs.lost)
      ensures OthersKept(original, fs.files, Touched(steps))
      ensures SafePaths(steps) ==> AllWritten(steps, cfg, fs.files)
      ensures Covers(steps, backups, original) && fs.lost == old(fs.lost) ==> BackupsGone(steps, original, fs.files)
    {
      hide SafePaths, Underway, Covers;
      ghost var before := fs.files;
      RemoveBackups(backups);
      FinishedRun(steps, cfg, backups, original, before, fs.files);
      if Covers(steps, backups, original) && fs.lost == old(fs.lost) {
        TableGone(steps, backups, original, fs.files);
      }
    }
  }

  /* ---------- The default pipeline ---------- */

  const FRR_CONF := "/etc/frr/frr.conf"
  const NFT_CONF := "/etc/nftables.conf"
  const KEA_CONF := "/etc/kea/kea-dhcp4.conf"
  const UNBOUND_CONF := "/etc/unbound/unbound.conf.d/warp-router.conf"
  const SYSCTL_CONF := "/etc/sysctl.d/90-warp-router.conf"

  type Renderer = SiteConfig -> Option<string>

  // NewPipeline, with the renderers as parameters.
  function DefaultSteps(sysctl: Renderer, frr: Renderer, nft: Renderer, kea: Renderer, unbound: Renderer): seq<Step> {
    [Step("sysctl", SYSCTL_CONF, sysctl, ""),
     Step("frr", FRR_CONF, frr, "frr"),
     Step("nftables", NFT_CONF, nft, "nftables"),
     Step("kea", KEA_CONF, kea, "kea-dhcp4-server"),
     Step("unbound", UNBOUND_CONF, unbound, "unbound")]
  }

  // The paths of the default pipeline meet the condition of the transactional guarantee.
  lemma DefaultPathsAreSafe(sysctl: Renderer, frr: Renderer, nft: Renderer, kea: Renderer, unbound: Renderer)
    ensures SafePaths(DefaultSteps(sysctl, frr, nft, kea, unbound))
  {
    assert |FRR_CONF| == 17 && |NFT_CONF| == 18 && |KEA_CONF| == 23 && |UNBOUND_CONF| == 44 && |SYSCTL_CONF| == 33;
    assert forall p :: |Backup(p)| == |p| + 12;
    var steps := DefaultSteps(sysctl, frr, nft, kea, unbound);
    assert forall s :: s in steps ==> |s.configPath| in {17, 18, 23, 33, 44};
  }

  // What a completed run of the default pipeline asks of the system: sysctl, then the four services, each with its own
  // new file in place.
  lemma DefaultCalls(sysctl: Renderer, frr: Renderer, nft: Renderer, kea: Renderer, unbound: Renderer, cfg: SiteConfig)
    requires sysctl(cfg).Some? && frr(cfg).Some? && nft(cfg).Some? && kea(cfg).Some? && unbound(cfg).Some?
    ensures CompletedCalls(DefaultSteps(sysctl, frr, nft, kea, unbound), true, cfg)
         == [ApplySysctl("/etc/sysctl.d/90-warp-router.conf", sysctl(cfg).value),
             Reload("frr", frr(cfg).value), Reload("nftables", nft(cfg).value),
             Reload("kea-dhcp4-server", kea(cfg).value), Reload("unbound", unbound(cfg).value)]
  {
    hide StepCalls;
    var steps := DefaultSteps(sysctl, frr, nft, kea, unbound);
    CompletedSnoc(steps[..0], steps[0], true, cfg);
    CompletedSnoc(steps[..1], steps[1], true, cfg);
    CompletedSnoc(steps[..2], steps[2], true, cfg);
    CompletedSnoc(steps[..3], steps[3], true, cfg);
    CompletedSnoc(steps[..4], steps[4], true, cfg);
    assert steps[..1] == steps[..0] + [steps[0]] && steps[..2] == steps[..1] + [steps[1]];
    assert steps[..3] == steps[..2] + [steps[2]] && steps[..4] == steps[..3] + [steps[3]];
    assert steps == steps[..4] + [steps[4]];
    assert steps[1].name[0] == 'f' && steps[2].name[0] == 'n' && steps[3].name[0] == 'k' && steps[4].name[0] == 'u';
    OwnCalls(steps[0], cfg);
    OwnCalls(steps[1], cfg);
    OwnCalls(steps[2], cfg);
    OwnCalls(steps[3], cfg);
    OwnCalls(steps[4], cfg);
  }

  lemma CompletedSnoc(front: seq<Step>, last: Step, reloads: bool, cfg: SiteConfig)
    ensures CompletedCalls(front + [last], reloads, cfg)
         == CompletedCalls(front, reloads, cfg) + StepCalls(last, reloads, cfg, None)
  {
    assert (front + [last])[..|front|] == front;
  }

  lemma OwnCalls(s: Step, cfg: SiteConfig)
    requires s.render(cfg).Some? && (s.name == "sysctl" <==> s.service == "")
    ensures StepCalls(s, true, cfg, None)
         == if s.name == "sysctl" then [ApplySysctl(s.configPath, s.render(cfg).value)]
            else [Reload(s.service, s.render(cfg).value)]
  {
  }
}
