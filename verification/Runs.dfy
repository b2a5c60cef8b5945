/** What whole runs of the updater guarantee, alone, in sequence, and after a crash. */
module Runs {
  import opened Wrappers
  import opened FileSystem
  import opened Installer
  import opened Manifest
  import opened Updater
  import G = Generator
  import Decimal

  // ----- The download loop -----

  lemma {:induction false} DownloadOnlyStages(
      verify: Verifier, fs: Files, pending: seq<G.Entry>, world: World, i: nat, q: Path)
    requires i <= |pending|
    requires q.root != Update || q.rel !in PathsOf(pending)[i..]
    ensures At(Download(verify, fs, pending, world, i).fs, q) == At(fs, q)
    decreases |pending| - i
  {
    if i < |pending| {
      assert PathsOf(pending)[i..] == [pending[i].path] + PathsOf(pending)[i + 1..];
      var got := Put(fs, Staged(pending[i].path), world.fetch(i).left);
      assert At(got, q) == At(fs, q);
      DownloadOnlyStages(verify, fs, pending, world, i + 1, q);
      DownloadOnlyStages(verify, got, pending, world, i + 1, q);
    }
  }

  /** The staged file of entry `k` verifies against an entry for the same path. */
  ghost predicate StagedGood(verify: Verifier, fs: Files, pending: seq<G.Entry>, k: nat)
    requires k < |pending|
  {
    exists j :: 0 <= j < |pending| && pending[j].path == pending[k].path &&
        Verified(verify, fs, Staged(pending[k].path), pending[j].sig)
  }

  lemma {:induction false} DownloadVerifies(verify: Verifier, fs: Files, pending: seq<G.Entry>, world: World, i: nat)
    requires i <= |pending| && Download(verify, fs, pending, world, i).ok
    ensures forall k :: i <= k < |pending| ==>
        StagedGood(verify, Download(verify, fs, pending, world, i).fs, pending, k)
    decreases |pending| - i
  {
    if i < |pending| {
      var e := pending[i];
      var next := if Verified(verify, fs, Staged(e.path), e.sig) then fs
          else Put(fs, Staged(e.path), world.fetch(i).left);
      var end := Download(verify, fs, pending, world, i).fs;
      DownloadVerifies(verify, next, pending, world, i + 1);
      if k :| i + 1 <= k < |pending| && pending[k].path == e.path {
        assert StagedGood(verify, end, pending, k);
      } else {
        DownloadOnlyStages(verify, next, pending, world, i + 1, Staged(e.path));
        assert At(next, Staged(e.path)) == At(end, Staged(e.path));
        assert Verified(verify, end, Staged(e.path), pending[i].sig);
      }
    }
  }

  lemma DistinctAreAllVerified(verify: Verifier, fs: Files, pending: seq<G.Entry>, k: nat)
    requires k < |pending| && Distinct(PathsOf(pending)) && StagedGood(verify, fs, pending, k)
    ensures Verified(verify, fs, Staged(pending[k].path), pending[k].sig)
  {
    var j :| 0 <= j < |pending| && pending[j].path == pending[k].path &&
        Verified(verify, fs, Staged(pending[k].path), pending[j].sig);
    assert PathsOf(pending)[j] == PathsOf(pending)[k];
  }

  /** After the downloads the installation finds what it needs. */
  lemma DownloadsPrepare(verify: Verifier, fs0: Files, pending: seq<G.Entry>, world: World)
    requires Download(verify, fs0, pending, world, 0).ok
    requires forall p :: p in PathsOf(pending) ==> Path(Backup, p) !in fs0
    ensures Ready(Download(verify, fs0, pending, world, 0).fs, PathsOf(pending))
  {
    var d, paths := Download(verify, fs0, pending, world, 0), PathsOf(pending);
    forall p | p in paths ensures Path(Update, p) in d.fs && Path(Backup, p) !in d.fs {
      DownloadsStage(verify, fs0, pending, world, p);
      DownloadOnlyStages(verify, fs0, pending, world, 0, Path(Backup, p));
      assert At(fs0, Path(Backup, p)) == None;
    }
  }

  lemma DownloadsStage(verify: Verifier, fs0: Files, pending: seq<G.Entry>, world: World, p: string)
    requires Download(verify, fs0, pending, world, 0).ok && p in PathsOf(pending)
    ensures Path(Update, p) in Download(verify, fs0, pending, world, 0).fs
  {
    var k :| 0 <= k < |pending| && PathsOf(pending)[k] == p;
    DownloadVerifies(verify, fs0, pending, world, 0);
    assert StagedGood(verify, Download(verify, fs0, pending, world, 0).fs, pending, k);
  }

  // ----- A finished run leaves everything verified -----

  /** Entries that share a target agree on its signature. */
  ghost predicate Consistent(os: Platform, entries: seq<G.Entry>) {
    forall e, f :: e in entries && f in entries && Target(os, e) == Target(os, f) ==> e.sig == f.sig
  }

  lemma InstallPutsPending(
      os: Platform, verify: Verifier, st: Installation, version: int, pending: seq<G.Entry>, world: World)
    requires Install(os, verify, st, version, pending, world).finished
    ensures var fs := Install(os, verify, st, version, pending, world).after.fs;
            && Distinct(PathsOf(pending))
            && (forall k :: 0 <= k < |pending| ==> Verified(verify, fs, Path(App, pending[k].path), pending[k].sig))
            && (forall r :: r !in PathsOf(pending) ==> At(fs, Path(App, r)) == At(st.fs, Path(App, r)))
  {
    var fs0 := Cleaned(st.fs, Backup, world.backupKept);
    var d := Download(verify, fs0, pending, world, 0);
    var fs1 := Perform(PolicyOf(os), d.fs, PathsOf(pending), world.faults).0;
    var fs := Install(os, verify, st, version, pending, world).after.fs;
    var paths := PathsOf(pending);
    SuccessInstallsEverything(PolicyOf(os), d.fs, paths, world.faults);
    DownloadVerifies(verify, fs0, pending, world, 0);
    assert paths[..|paths|] == paths;
    forall k | 0 <= k < |pending|
      ensures Verified(verify, fs, Path(App, pending[k].path), pending[k].sig)
    {
      DistinctAreAllVerified(verify, d.fs, pending, k);
      var q := Path(App, pending[k].path);
      assert q.rel == paths[k];
      assert At(fs, q) == At(fs1, q) == At(d.fs, Staged(q.rel));
    }
    forall r | r !in paths
      ensures At(fs, Path(App, r)) == At(st.fs, Path(App, r))
    {
      var q := Path(App, r);
      DownloadOnlyStages(verify, fs0, pending, world, 0, q);
      assert At(fs, q) == At(fs1, q) == At(d.fs, q);
    }
  }

  lemma AcceptedFacts(os: Platform, verify: Verifier, fs: Files, current: int, text: string)
    requires Judge(os, verify, fs, current, text).Accepted?
    ensures BodyOf(text).Body?
    ensures Judge(os, verify, fs, current, text).pending == Pending(os, verify, fs, BodyOf(text).entries)
    ensures Judge(os, verify, fs, current, text).version > current
    ensures verify(HashedStream(text), SignatureLine(text))
  {}

  lemma SkippedIsNotPending(os: Platform, verify: Verifier, fs: Files, entries: seq<G.Entry>, e: G.Entry)
    requires Consistent(os, entries) && e in entries && Installed(os, verify, fs, e)
    ensures Target(os, e) !in PathsOf(Pending(os, verify, fs, entries))
  {
    var pending := Pending(os, verify, fs, entries);
    PendingIsTheRest(os, verify, fs, entries);
    forall k | 0 <= k < |pending| ensures PathsOf(pending)[k] != Target(os, e) {
      assert pending[k] in pending;
      var f :| f in entries && !Installed(os, verify, fs, f) && pending[k] == f.(path := Target(os, f));
      assert Target(os, f) == Target(os, e) ==> f.sig == e.sig;
    }
  }

  lemma InstallVerifiesEntries(
      os: Platform, verify: Verifier, st: Installation, version: int, entries: seq<G.Entry>, world: World)
    requires Install(os, verify, st, version, Pending(os, verify, st.fs, entries), world).finished
    ensures var fs := Install(os, verify, st, version, Pending(os, verify, st.fs, entries), world).after.fs;
            && (forall e :: e in entries && !Installed(os, verify, st.fs, e) ==> Installed(os, verify, fs, e))
            && (Consistent(os, entries) ==> forall e :: e in entries ==> Installed(os, verify, fs, e))
  {
    var pending := Pending(os, verify, st.fs, entries);
    var fs := Install(os, verify, st, version, pending, world).after.fs;
    InstallPutsPending(os, verify, st, version, pending, world);
    PendingIsTheRest(os, verify, st.fs, entries);
    forall e | e in entries && !Installed(os, verify, st.fs, e)
      ensures Installed(os, verify, fs, e)
    {
      var k :| 0 <= k < |pending| && pending[k] == e.(path := Target(os, e));
      assert Verified(verify, fs, Path(App, pending[k].path), pending[k].sig);
    }
    if Consistent(os, entries) {
      forall e | e in entries && Installed(os, verify, st.fs, e)
        ensures Installed(os, verify, fs, e)
      {
        SkippedIsNotPending(os, verify, st.fs, entries, e);
        assert At(fs, Path(App, Target(os, e))) == At(st.fs, Path(App, Target(os, e)));
      }
    }
  }

  /** When a run reaches its final cleanup, every entry of the manifest, skipped, reused or downloaded,
      verifies in the application folder. An entry found installed can only lose that if a pending entry
      for the same target carries another signature. */
  lemma FinishedMeansVerified(os: Platform, verify: Verifier, st: Installation, world: World)
    ensures var r := Check(os, verify, st, world);
            r.finished ==>
              && world.manifest.Some? && BodyOf(world.manifest.value).Body?
              && var entries := BodyOf(world.manifest.value).entries;
                 && (forall e :: e in entries && !Installed(os, verify, st.fs, e) ==>
                     Installed(os, verify, r.after.fs, e))
                 && (Consistent(os, entries) ==> forall e :: e in entries ==> Installed(os, verify, r.after.fs, e))
  {
    if Check(os, verify, st, world).finished {
      var text := world.manifest.value;
      AcceptedFacts(os, verify, st.fs, st.version, text);
      InstallVerifiesEntries(os, verify, st, Judge(os, verify, st.fs, st.version, text).version, BodyOf(text).entries,
          world);
    }
  }

  lemma SkippedTarget(
      os: Platform, verify: Verifier, st: Installation, version: int, pending: seq<G.Entry>, world: World, e: G.Entry)
    requires Install(os, verify, st, version, pending, world).finished && Installed(os, verify, st.fs, e)
    ensures var d := Download(verify, Cleaned(st.fs, Backup, world.backupKept), pending, world, 0);
            Installed(os, verify, Install(os, verify, st, version, pending, world).after.fs, e) <==>
            Target(os, e) !in PathsOf(pending) || Verified(verify, d.fs, Staged(Target(os, e)), e.sig)
  {
    var fs0 := Cleaned(st.fs, Backup, world.backupKept);
    var d, paths, q := Download(verify, fs0, pending, world, 0), PathsOf(pending), Path(App, Target(os, e));
    var after := Install(os, verify, st, version, pending, world).after.fs;
    var put := Perform(PolicyOf(os), d.fs, paths, world.faults).0;
    SuccessInstallsEverything(PolicyOf(os), d.fs, paths, world.faults);
    assert paths[..|paths|] == paths;
    assert At(after, q) == At(put, q) == StageAt(d.fs, paths, |paths|, false, q);
    if q.rel in paths {
      assert At(after, q) == At(d.fs, Staged(q.rel));
    } else {
      DownloadOnlyStages(verify, fs0, pending, world, 0, q);
      assert At(after, q) == At(st.fs, q);
    }
  }

  /** An entry found installed still verifies after a finished run exactly when no pending entry has its target,
      or the content downloaded for that target verifies against its signature too. */
  lemma SkippedStaysVerifiedExactly(os: Platform, verify: Verifier, st: Installation, world: World, e: G.Entry)
    ensures var r := Check(os, verify, st, world);
            r.finished && Installed(os, verify, st.fs, e) ==>
              && world.manifest.Some? && BodyOf(world.manifest.value).Body?
              && var pending := Pending(os, verify, st.fs, BodyOf(world.manifest.value).entries);
                 var d := Download(verify, Cleaned(st.fs, Backup, world.backupKept), pending, world, 0);
                 Installed(os, verify, r.after.fs, e) <==>
                 Target(os, e) !in PathsOf(pending) || Verified(verify, d.fs, Staged(Target(os, e)), e.sig)
  {
    if Check(os, verify, st, world).finished && Installed(os, verify, st.fs, e) {
      var text := world.manifest.value;
      AcceptedFacts(os, verify, st.fs, st.version, text);
      SkippedTarget(os, verify, st, Judge(os, verify, st.fs, st.version, text).version,
        Pending(os, verify, st.fs, BodyOf(text).entries), world, e);
    }
  }

  // ----- Nothing happens without a verified manifest -----

  ghost predicate ManifestVerified(verify: Verifier, world: World) {
    && world.manifest.Some?
    && BodyOf(world.manifest.value).Body?
    && verify(HashedStream(world.manifest.value), SignatureLine(world.manifest.value))
  }

  /** Neither a file nor the version changes in a run whose manifest stream did not verify. */
  lemma UnverifiedManifestChangesNothing(os: Platform, verify: Verifier, st: Installation, world: World)
    requires !ManifestVerified(verify, world)
    ensures Check(os, verify, st, world) == Report(st, false, [])
  {}

  /** A finished run writes the manifest's version, newer than the one before, if it can write at all;
      an unfinished one leaves the version alone. */
  lemma VersionFollowsManifest(os: Platform, verify: Verifier, st: Installation, world: World)
    ensures var r := Check(os, verify, st, world);
            if r.finished then
              && world.manifest.Some?
              && Decimal.Atoi(VersionLine(world.manifest.value)) > st.version
              && r.after.version == if world.versionWritable then Decimal.Atoi(VersionLine(world.manifest.value))
                  else st.version
            else r.after.version == st.version
  {
    if world.manifest.Some? && Judge(os, verify, st.fs, st.version, world.manifest.value).Accepted? {
      var verdict := Judge(os, verify, st.fs, st.version, world.manifest.value);
      InstallWritesVersion(os, verify, st, verdict.version, verdict.pending, world);
    }
  }

  lemma InstallWritesVersion(
      os: Platform, verify: Verifier, st: Installation, version: int, pending: seq<G.Entry>, world: World)
    ensures var r := Install(os, verify, st, version, pending, world);
            r.after.version == if r.finished && world.versionWritable then version else st.version
  {}

  // ----- What a run leaves alone -----

  lemma ForwardLeavesOthers(policy: Policy, fs: Files, paths: seq<string>, faults: Faults, i: nat, q: Path)
    requires i <= |paths| && q.rel !in paths
    ensures At(Last(Forward(policy, fs, paths, faults, i).states), q) == At(fs, q)
  {
    LoopLeavesOthers(policy, fs, paths, faults, i, q);
  }

  lemma InstallLeavesOthers(
      os: Platform, verify: Verifier, st: Installation, version: int, pending: seq<G.Entry>, world: World, r: string)
    requires r !in PathsOf(pending)
    ensures At(Install(os, verify, st, version, pending, world).after.fs, Path(App, r)) == At(st.fs, Path(App, r))
  {
    var q, paths := Path(App, r), PathsOf(pending);
    var fs0 := Cleaned(st.fs, Backup, world.backupKept);
    var d := Download(verify, fs0, pending, world, 0);
    DownloadOnlyStages(verify, fs0, pending, world, 0, q);
    assert At(d.fs, q) == At(st.fs, q);
    if d.ok {
      var run := Forward(PolicyOf(os), d.fs, paths, world.faults, 0);
      ForwardLeavesOthers(PolicyOf(os), d.fs, paths, world.faults, 0, q);
      if run.stop.Failed? {
        UndoLeavesOthers(PolicyOf(os), Last(run.states), paths, world.faults, run.stop.index + 1, q);
      }
    }
  }

  lemma InstallChangesOnlyPending(
      os: Platform, verify: Verifier, st: Installation, version: int, entries: seq<G.Entry>, world: World, r: string)
    ensures var after := Install(os, verify, st, version, Pending(os, verify, st.fs, entries), world).after;
            At(after.fs, Path(App, r)) != At(st.fs, Path(App, r)) ==>
              exists e :: e in entries && Target(os, e) == r && !Installed(os, verify, st.fs, e)
  {
    var pending := Pending(os, verify, st.fs, entries);
    if r in PathsOf(pending) {
      var k :| 0 <= k < |pending| && PathsOf(pending)[k] == r;
      assert pending[k] in pending;
      PendingIsTheRest(os, verify, st.fs, entries);
    } else {
      InstallLeavesOthers(os, verify, st, version, pending, world, r);
    }
  }

  /** Whatever fails in a run, application files that are no target of the manifest, or whose entry was
      found installed, are not touched. */
  lemma OnlyPendingTargetsChange(os: Platform, verify: Verifier, st: Installation, world: World, r: string)
    ensures At(Check(os, verify, st, world).after.fs, Path(App, r)) != At(st.fs, Path(App, r)) ==>
              && ManifestVerified(verify, world)
              && exists e :: e in BodyOf(world.manifest.value).entries && Target(os, e) == r &&
                  !Installed(os, verify, st.fs, e)
  {
    if world.manifest.Some? && Judge(os, verify, st.fs, st.version, world.manifest.value).Accepted? {
      var text := world.manifest.value;
      AcceptedFacts(os, verify, st.fs, st.version, text);
      InstallChangesOnlyPending(os, verify, st, Judge(os, verify, st.fs, st.version, text).version,
          BodyOf(text).entries, world, r);
    }
  }

  // ----- All or nothing -----

  /** What a replacing rename needs for rollback to work: no failure before a file was moved out, no target twice. */
  ghost predicate RollsBack(os: Platform, faults: Faults, paths: seq<string>) {
    os == Windows || (Distinct(paths) && forall n: nat :: !faults.backupFolder(n) && !faults.moveOut(n))
  }

  lemma {:induction false} LateFailuresMovedOut(fs: Files, paths: seq<string>, faults: Faults, i: nat)
    requires i <= |paths| && RollsBack(Posix, faults, paths)
    ensures var stop := Forward(Replace, fs, paths, faults, i).stop;
            stop.Failed? ==> Late(stop.step)
    decreases |paths| - i
  {
    if i < |paths| {
      var a := InstallFile(Replace, fs, paths[i], i, faults);
      if a.failure.None? {
        LateFailuresMovedOut(a.now, paths, faults, i + 1);
      }
    }
  }

  lemma LateFailureRollsBack(os: Platform, fs: Files, paths: seq<string>, faults: Faults)
    requires Ready(fs, paths) && QuietRollback(faults) && RollsBack(os, faults, paths)
    ensures !Perform(PolicyOf(os), fs, paths, faults).1 ==> Perform(PolicyOf(os), fs, paths, faults).0 == fs
  {
    if Forward(PolicyOf(os), fs, paths, faults, 0).stop.Failed? {
      RollbackIsExactInverse(PolicyOf(os), fs, paths, faults);
      if os == Posix {
        LateFailuresMovedOut(fs, paths, faults, 0);
      }
    }
  }

  lemma InstallIsAllOrNothing(
      os: Platform, verify: Verifier, st: Installation, version: int, pending: seq<G.Entry>, world: World, r: string)
    requires QuietRollback(world.faults) && RollsBack(os, world.faults, PathsOf(pending))
    requires forall p :: p in PathsOf(pending) ==> p !in world.backupKept
    ensures var result := Install(os, verify, st, version, pending, world);
            !result.finished ==> At(result.after.fs, Path(App, r)) == At(st.fs, Path(App, r))
  {
    var q, paths := Path(App, r), PathsOf(pending);
    var fs0 := Cleaned(st.fs, Backup, world.backupKept);
    var d := Download(verify, fs0, pending, world, 0);
    DownloadOnlyStages(verify, fs0, pending, world, 0, q);
    assert At(d.fs, q) == At(st.fs, q);
    if d.ok {
      forall p | p in paths ensures Path(Backup, p) !in fs0 {
        assert At(fs0, Path(Backup, p)) == None;
      }
      DownloadsPrepare(verify, fs0, pending, world);
      LateFailureRollsBack(os, d.fs, paths, world.faults);
    }
  }

  lemma KeptIsNotPending(os: Platform, verify: Verifier, fs: Files, entries: seq<G.Entry>, kept: set<string>)
    requires forall e :: e in entries ==> Target(os, e) !in kept
    ensures forall p :: p in PathsOf(Pending(os, verify, fs, entries)) ==> p !in kept
  {
    var pending := Pending(os, verify, fs, entries);
    PendingIsTheRest(os, verify, fs, entries);
    forall p | p in PathsOf(pending) ensures p !in kept {
      var k :| 0 <= k < |pending| && PathsOf(pending)[k] == p;
      assert pending[k] in pending;
    }
  }

  /** A run either finishes or leaves every application file as it was, as long as the rollback's own renames
      work and, where a rename replaces, no target is listed twice and no file fails before it was moved out. */
  lemma RunIsAllOrNothing(os: Platform, verify: Verifier, st: Installation, world: World, r: string)
    requires QuietRollback(world.faults)
    requires world.manifest.Some? && BodyOf(world.manifest.value).Body? ==>
               var entries := BodyOf(world.manifest.value).entries;
               && RollsBack(os, world.faults, PathsOf(Pending(os, verify, st.fs, entries)))
               && forall e :: e in entries ==> Target(os, e) !in world.backupKept
    ensures var result := Check(os, verify, st, world);
            !result.finished ==> At(result.after.fs, Path(App, r)) == At(st.fs, Path(App, r))
  {
    if world.manifest.Some? && Judge(os, verify, st.fs, st.version, world.manifest.value).Accepted? {
      var text := world.manifest.value;
      AcceptedFacts(os, verify, st.fs, st.version, text);
      var entries := BodyOf(text).entries;
      KeptIsNotPending(os, verify, st.fs, entries, world.backupKept);
      InstallIsAllOrNothing(os, verify, st, Judge(os, verify, st.fs, st.version, text).version,
        Pending(os, verify, st.fs, entries), world, r);
    }
  }

  // ----- Sequences of runs -----

  function RunAll(os: Platform, verify: Verifier, st: Installation, worlds: seq<World>): Installation
    decreases |worlds|
  {
    if worlds == [] then st else RunAll(os, verify, Check(os, verify, st, worlds[0]).after, worlds[1..])
  }

  /** Over any sequence of runs the version file never goes back. */
  lemma {:induction false} VersionNeverDecreases(os: Platform, verify: Verifier, st: Installation, worlds: seq<World>)
    ensures RunAll(os, verify, st, worlds).version >= st.version
    decreases |worlds|
  {
    if worlds != [] {
      VersionFollowsManifest(os, verify, st, worlds[0]);
      VersionNeverDecreases(os, verify, Check(os, verify, st, worlds[0]).after, worlds[1..]);
    }
  }

  /** Everything in the application and backup folders is `good`. */
  ghost predicate AllGood(good: Content -> bool, fs: Files) {
    forall q :: q in fs && q.root != Update ==> good(fs[q])
  }

  /** The staged files that are there are good. */
  ghost predicate StagedAllGood(good: Content -> bool, fs: Files, paths: seq<string>) {
    forall p :: p in paths && Staged(p) in fs ==> good(fs[Staged(p)])
  }

  lemma MoveStaysGood(good: Content -> bool, policy: Policy, fs: Files, src: Path, dst: Path, fault: bool)
    requires src != dst && AllGood(good, fs)
    requires src.root == Update && src in fs ==> good(fs[src])
    ensures AllGood(good, Rename(policy, fs, src, dst, fault).0)
  {
    var r := Rename(policy, fs, src, dst, fault);
    forall q | q in r.0 && q.root != Update ensures good(r.0[q]) {
      assert r.1 == Success ==> At(r.0, q) == if q == dst then At(fs, src) else At(fs, q);
    }
  }

  lemma RenameKeepsStaged(
      good: Content -> bool, policy: Policy, fs: Files, paths: seq<string>, src: Path, dst: Path, fault: bool)
    requires src != dst && dst.root != Update && StagedAllGood(good, fs, paths)
    ensures StagedAllGood(good, Rename(policy, fs, src, dst, fault).0, paths)
  {
    var r := Rename(policy, fs, src, dst, fault).0;
    forall p | p in paths && Staged(p) in r ensures good(r[Staged(p)]) {
      assert At(r, Staged(p)) == None || At(r, Staged(p)) == At(fs, Staged(p));
    }
  }

  lemma FileStaysGood(
      good: Content -> bool, policy: Policy, fs: Files, paths: seq<string>, p: string, i: nat, faults: Faults)
    requires AllGood(good, fs) && StagedAllGood(good, fs, paths) && p in paths
    ensures var now := InstallFile(policy, fs, p, i, faults).now;
            AllGood(good, now) && StagedAllGood(good, now, paths)
  {
    MoveStaysGood(good, policy, fs, Path(App, p), Path(Backup, p), faults.moveOut(i));
    RenameKeepsStaged(good, policy, fs, paths, Path(App, p), Path(Backup, p), faults.moveOut(i));
    var out := Rename(policy, fs, Path(App, p), Path(Backup, p), faults.moveOut(i)).0;
    assert Staged(p) == Path(Update, p);
    MoveStaysGood(good, policy, out, Path(Update, p), Path(App, p), faults.moveIn(i));
    RenameKeepsStaged(good, policy, out, paths, Path(Update, p), Path(App, p), faults.moveIn(i));
  }

  lemma {:induction false} ForwardStaysGood(
      good: Content -> bool, policy: Policy, fs: Files, paths: seq<string>, faults: Faults, i: nat)
    requires i <= |paths| && AllGood(good, fs) && StagedAllGood(good, fs, paths)
    ensures AllGood(good, Last(Forward(policy, fs, paths, faults, i).states))
    decreases |paths| - i
  {
    if i < |paths| {
      FileStaysGood(good, policy, fs, paths, paths[i], i, faults);
      var a := InstallFile(policy, fs, paths[i], i, faults);
      if a.failure.None? {
        ForwardStaysGood(good, policy, a.now, paths, faults, i + 1);
      }
    }
  }

  lemma {:induction false} UndoStaysGood(
      good: Content -> bool, policy: Policy, fs: Files, paths: seq<string>, faults: Faults, n: nat)
    requires n <= |paths| && AllGood(good, fs)
    ensures AllGood(good, Undo(policy, fs, paths, faults, n))
    decreases n
  {
    if n > 0 {
      var p := paths[n - 1];
      MoveStaysGood(good, policy, fs, Path(App, p), Path(Update, p), faults.undoOut(n - 1));
      var out := Rename(policy, fs, Path(App, p), Path(Update, p), faults.undoOut(n - 1)).0;
      MoveStaysGood(good, policy, out, Path(Backup, p), Path(App, p), faults.undoIn(n - 1));
      UndoStaysGood(good, policy, UndoOne(policy, fs, p, faults.undoOut(n - 1), faults.undoIn(n - 1)), paths, faults,
          n - 1);
    }
  }

  lemma SameOutsideUpdateStaysGood(good: Content -> bool, before: Files, after: Files)
    requires AllGood(good, before)
    requires forall q: Path :: q.root != Update && q in after ==> At(after, q) == At(before, q)
    ensures AllGood(good, after)
  {
    forall q | q in after && q.root != Update ensures good(after[q]) {
      assert At(after, q) == At(before, q);
    }
  }

  /** `good` accepts whatever an entry of this manifest, itself verified, vouches for. */
  ghost predicate Vouched(good: Content -> bool, verify: Verifier, world: World) {
    ManifestVerified(verify, world) ==>
      forall e, c :: e in BodyOf(world.manifest.value).entries && verify(c, e.sig) ==> good(c)
  }

  ghost predicate PendingVouched(good: Content -> bool, verify: Verifier, pending: seq<G.Entry>) {
    forall k, c :: 0 <= k < |pending| && verify(c, pending[k].sig) ==> good(c)
  }

  lemma DownloadStaysGood(good: Content -> bool, verify: Verifier, fs: Files, pending: seq<G.Entry>, world: World)
    requires AllGood(good, fs)
    requires PendingVouched(good, verify, pending)
    ensures var d := Download(verify, fs, pending, world, 0);
            AllGood(good, d.fs) && (d.ok ==> StagedAllGood(good, d.fs, PathsOf(pending)))
  {
    var d, paths := Download(verify, fs, pending, world, 0), PathsOf(pending);
    forall q: Path | q.root != Update ensures At(d.fs, q) == At(fs, q) {
      DownloadOnlyStages(verify, fs, pending, world, 0, q);
    }
    SameOutsideUpdateStaysGood(good, fs, d.fs);
    if d.ok {
      DownloadVerifies(verify, fs, pending, world, 0);
      forall p | p in paths && Staged(p) in d.fs ensures good(d.fs[Staged(p)]) {
        var k :| 0 <= k < |paths| && paths[k] == p;
        assert StagedGood(verify, d.fs, pending, k);
      }
    }
  }

  lemma PerformStaysGood(good: Content -> bool, policy: Policy, fs: Files, paths: seq<string>, faults: Faults)
    requires AllGood(good, fs) && StagedAllGood(good, fs, paths)
    ensures AllGood(good, Perform(policy, fs, paths, faults).0)
  {
    var run := Forward(policy, fs, paths, faults, 0);
    ForwardStaysGood(good, policy, fs, paths, faults, 0);
    if run.stop.Failed? {
      UndoStaysGood(good, policy, Last(run.states), paths, faults, run.stop.index + 1);
    }
  }

  lemma CleanedStaysGood(good: Content -> bool, fs: Files, root: Root, kept: set<string>)
    requires AllGood(good, fs)
    ensures AllGood(good, Cleaned(fs, root, kept))
  {
    var clean := Cleaned(fs, root, kept);
    forall q: Path | q.root != Update && q in clean ensures At(clean, q) == At(fs, q) {}
    SameOutsideUpdateStaysGood(good, fs, clean);
  }

  lemma InstallStaysGood(
      good: Content -> bool, os: Platform, verify: Verifier, st: Installation, version: int, pending: seq<G.Entry>,
      world: World)
    requires AllGood(good, st.fs)
    requires PendingVouched(good, verify, pending)
    ensures AllGood(good, Install(os, verify, st, version, pending, world).after.fs)
  {
    var fs0 := Cleaned(st.fs, Backup, world.backupKept);
    CleanedStaysGood(good, st.fs, Backup, world.backupKept);
    DownloadStaysGood(good, verify, fs0, pending, world);
    var d := Download(verify, fs0, pending, world, 0);
    if d.ok {
      PerformStaysGood(good, PolicyOf(os), d.fs, PathsOf(pending), world.faults);
      CleanedStaysGood(good, Perform(PolicyOf(os), d.fs, PathsOf(pending), world.faults).0, Update, world.updateKept);
    }
  }

  lemma PendingIsVouched(good: Content -> bool, os: Platform, verify: Verifier, fs: Files, entries: seq<G.Entry>)
    requires forall e, c :: e in entries && verify(c, e.sig) ==> good(c)
    ensures PendingVouched(good, verify, Pending(os, verify, fs, entries))
  {
    var pending := Pending(os, verify, fs, entries);
    PendingIsTheRest(os, verify, fs, entries);
    forall k, c | 0 <= k < |pending| && verify(c, pending[k].sig) ensures good(c) {
      assert pending[k] in pending;
      var e :| e in entries && pending[k] == e.(path := Target(os, e));
    }
  }

  lemma CheckStaysGood(good: Content -> bool, os: Platform, verify: Verifier, st: Installation, world: World)
    requires AllGood(good, st.fs) && Vouched(good, verify, world)
    ensures AllGood(good, Check(os, verify, st, world).after.fs)
  {
    if world.manifest.Some? && Judge(os, verify, st.fs, st.version, world.manifest.value).Accepted? {
      var text := world.manifest.value;
      AcceptedFacts(os, verify, st.fs, st.version, text);
      PendingIsVouched(good, os, verify, st.fs, BodyOf(text).entries);
      InstallStaysGood(good, os, verify, st, Judge(os, verify, st.fs, st.version, text).version,
        Pending(os, verify, st.fs, BodyOf(text).entries), world);
    }
  }

  /** Over any sequence of runs, however downloads, renames, rollbacks and clean-ups fail, the application
      folder only ever holds content it or the backup folder held at the start, or content that verifies
      against an entry of a manifest that itself verified. */
  lemma {:induction false} OnlyVouchedContentArrives(
      good: Content -> bool, os: Platform, verify: Verifier, st: Installation, worlds: seq<World>)
    requires AllGood(good, st.fs)
    requires forall w :: w in worlds ==> Vouched(good, verify, w)
    ensures AllGood(good, RunAll(os, verify, st, worlds).fs)
    decreases |worlds|
  {
    if worlds != [] {
      assert worlds[0] in worlds;
      CheckStaysGood(good, os, verify, st, worlds[0]);
      OnlyVouchedContentArrives(good, os, verify, Check(os, verify, st, worlds[0]).after, worlds[1..]);
    }
  }

  // ----- Originals across runs -----

  /** On Windows a run, however it fails, leaves each original in the application folder or in the backup. */
  lemma WindowsRunKeepsOriginals(verify: Verifier, st: Installation, world: World, r: string)
    requires Path(App, r) in st.fs
    ensures var after := Check(Windows, verify, st, world).after.fs;
            || At(after, Path(App, r)) == At(st.fs, Path(App, r))
            || At(after, Path(Backup, r)) == At(st.fs, Path(App, r))
  {
    if world.manifest.Some? && Judge(Windows, verify, st.fs, st.version, world.manifest.value).Accepted? {
      var verdict := Judge(Windows, verify, st.fs, st.version, world.manifest.value);
      InstallKeepsOriginals(verify, st, verdict.version, verdict.pending, world, r);
    }
  }

  lemma InstallKeepsOriginals(
      verify: Verifier, st: Installation, version: int, pending: seq<G.Entry>, world: World, r: string)
    requires Path(App, r) in st.fs
    ensures var after := Install(Windows, verify, st, version, pending, world).after.fs;
            || At(after, Path(App, r)) == At(st.fs, Path(App, r))
            || At(after, Path(Backup, r)) == At(st.fs, Path(App, r))
  {
    var fs0 := Cleaned(st.fs, Backup, world.backupKept);
    var d := Download(verify, fs0, pending, world, 0);
    DownloadOnlyStages(verify, fs0, pending, world, 0, Path(App, r));
    assert At(d.fs, Path(App, r)) == At(st.fs, Path(App, r));
    if d.ok {
      forall p | p in PathsOf(pending) ensures Path(Update, p) in d.fs {
        DownloadsStage(verify, fs0, pending, world, p);
      }
      FailingRollbackKeepsOriginals(d.fs, PathsOf(pending), world.faults);
    }
  }

  lemma {:induction false} AbsentStaysAbsentInDownloads(
      verify: Verifier, fs: Files, pending: seq<G.Entry>, world: World, i: nat, c: Content)
    requires i <= |pending| && c !in fs.Values && forall k: nat :: world.fetch(k).left != Some(c)
    ensures c !in Download(verify, fs, pending, world, i).fs.Values
    decreases |pending| - i
  {
    if i < |pending| {
      var got := Put(fs, Staged(pending[i].path), world.fetch(i).left);
      forall q | q in got ensures got[q] != c {
        assert At(got, q) == if q == Staged(pending[i].path) then world.fetch(i).left else At(fs, q);
      }
      AbsentStaysAbsentInDownloads(verify, fs, pending, world, i + 1, c);
      AbsentStaysAbsentInDownloads(verify, got, pending, world, i + 1, c);
    }
  }

  lemma {:induction false} AbsentStaysAbsentInLoop(
      policy: Policy, fs: Files, paths: seq<string>, faults: Faults, i: nat, c: Content)
    requires i <= |paths| && c !in fs.Values
    ensures c !in Last(Forward(policy, fs, paths, faults, i).states).Values
    decreases |paths| - i
  {
    if i < |paths| {
      var a := InstallFile(policy, fs, paths[i], i, faults);
      if a.failure.None? {
        AbsentStaysAbsentInLoop(policy, a.now, paths, faults, i + 1, c);
      }
    }
  }

  lemma AbsentStaysAbsent(
      os: Platform, verify: Verifier, st: Installation, version: int, pending: seq<G.Entry>, world: World, c: Content)
    requires c !in Cleaned(st.fs, Backup, world.backupKept).Values
    requires forall k: nat :: world.fetch(k).left != Some(c)
    ensures c !in Install(os, verify, st, version, pending, world).after.fs.Values
  {
    var fs0 := Cleaned(st.fs, Backup, world.backupKept);
    var d := Download(verify, fs0, pending, world, 0);
    AbsentStaysAbsentInDownloads(verify, fs0, pending, world, 0, c);
    if d.ok {
      var run := Forward(PolicyOf(os), d.fs, PathsOf(pending), world.faults, 0);
      AbsentStaysAbsentInLoop(PolicyOf(os), d.fs, PathsOf(pending), world.faults, 0, c);
      if run.stop.Failed? {
        GoneStaysGone(PolicyOf(os), Last(run.states), PathsOf(pending), world.faults, run.stop.index + 1, c);
      }
    }
  }

  ghost predicate OnlyAt(fs: Files, q: Path, c: Content) {
    forall k :: k in fs && fs[k] == c <==> k == q
  }

  lemma HeldAfterPerform(fs: Files, paths: seq<string>, faults: Faults, p: string, c: Content)
    requires At(fs, Path(Backup, p)) == Some(c) && forall r :: At(fs, Path(Update, r)) != Some(c)
    ensures var end := Perform(Refuse, fs, paths, faults);
            exists q :: At(end.0, q) == Some(c) && (end.1 ==> q.root != Update)
  {
    var end := Perform(Refuse, fs, paths, faults);
    RefusingUpdateConserves(fs, paths, faults);
    assert Path(Backup, p) in Holders(fs, c);
    assert |Holders(end.0, c)| == |Holders(fs, c)|;
    var q :| q in Holders(end.0, c);
    assert At(end.0, q) == Some(c);
    if end.1 {
      SuccessInstallsEverything(Refuse, fs, paths, faults);
      assert At(end.0, q) == StageAt(fs, paths, |paths|, false, q);
      assert q.root == Update ==> q == Path(Update, q.rel);
    }
  }

  lemma KeptBackupSurvives(
      os: Platform, verify: Verifier, st: Installation, version: int, pending: seq<G.Entry>, world: World,
      p: string, c: Content)
    requires OnlyAt(st.fs, Path(Backup, p), c) && p in world.backupKept
    requires forall k: nat :: world.fetch(k).left != Some(c)
    requires os == Windows || p !in PathsOf(pending)
    ensures c in Install(os, verify, st, version, pending, world).after.fs.Values
  {
    var q, paths := Path(Backup, p), PathsOf(pending);
    var fs0 := Cleaned(st.fs, Backup, world.backupKept);
    var d := Download(verify, fs0, pending, world, 0);
    var after := Install(os, verify, st, version, pending, world).after.fs;
    assert At(fs0, q) == Some(c);
    DownloadOnlyStages(verify, fs0, pending, world, 0, q);
    if !d.ok {
      assert At(after, q) == Some(c);
    } else if p !in paths {
      var run := Forward(PolicyOf(os), d.fs, paths, world.faults, 0);
      ForwardLeavesOthers(PolicyOf(os), d.fs, paths, world.faults, 0, q);
      if run.stop.Failed? {
        UndoLeavesOthers(PolicyOf(os), Last(run.states), paths, world.faults, run.stop.index + 1, q);
      }
      assert At(after, q) == Some(c);
    } else {
      StagedComesFromFetches(verify, fs0, pending, world, 0, c);
      HeldAfterPerform(d.fs, paths, world.faults, p, c);
      var end := Perform(Refuse, d.fs, paths, world.faults);
      var k :| At(end.0, k) == Some(c) && (end.1 ==> k.root != Update);
      assert At(after, k) == Some(c);
    }
  }

  /** What was not staged and is not delivered does not get staged. */
  lemma {:induction false} StagedComesFromFetches(
      verify: Verifier, fs: Files, pending: seq<G.Entry>, world: World, i: nat, c: Content)
    requires i <= |pending| && forall r :: At(fs, Path(Update, r)) != Some(c)
    requires forall k: nat :: world.fetch(k).left != Some(c)
    ensures forall r :: At(Download(verify, fs, pending, world, i).fs, Path(Update, r)) != Some(c)
    decreases |pending| - i
  {
    if i < |pending| {
      var got := Put(fs, Staged(pending[i].path), world.fetch(i).left);
      StagedComesFromFetches(verify, fs, pending, world, i + 1, c);
      StagedComesFromFetches(verify, got, pending, world, i + 1, c);
    }
  }

  /** A content left in the backup alone, by a failed rollback or a crash, and not delivered again, survives the
      next run exactly when that run accepts no manifest or cannot delete it: an accepted manifest begins by
      emptying the backup. (Not covered: a replacing rename over an undeletable backup of a pending target.) */
  lemma BackupSurvivesExactly(
      os: Platform, verify: Verifier, st: Installation, world: World, p: string, c: Content)
    requires OnlyAt(st.fs, Path(Backup, p), c) && forall k: nat :: world.fetch(k).left != Some(c)
    requires os == Posix && p in world.backupKept && world.manifest.Some? ==>
               var verdict := Judge(os, verify, st.fs, st.version, world.manifest.value);
               verdict.Accepted? ==> p !in PathsOf(verdict.pending)
    ensures c in Check(os, verify, st, world).after.fs.Values <==>
            || p in world.backupKept
            || world.manifest.None?
            || Judge(os, verify, st.fs, st.version, world.manifest.value).Rejected?
  {
    assert Path(Backup, p) in st.fs && st.fs[Path(Backup, p)] == c;
    if world.manifest.Some? && Judge(os, verify, st.fs, st.version, world.manifest.value).Accepted? {
      var verdict := Judge(os, verify, st.fs, st.version, world.manifest.value);
      if p in world.backupKept {
        KeptBackupSurvives(os, verify, st, verdict.version, verdict.pending, world, p, c);
      } else {
        AbsentStaysAbsent(os, verify, st, verdict.version, verdict.pending, world, c);
      }
    }
  }

  // ----- Convergence -----

  ghost predicate DistinctTargets(os: Platform, entries: seq<G.Entry>) {
    forall i, j :: 0 <= i < j < |entries| ==> Target(os, entries[i]) != Target(os, entries[j])
  }

  lemma {:induction false} PendingDistinct(os: Platform, verify: Verifier, fs: Files, entries: seq<G.Entry>)
    requires DistinctTargets(os, entries)
    ensures Distinct(PathsOf(Pending(os, verify, fs, entries)))
    ensures Consistent(os, entries)
  {
    if entries != [] {
      var init, last := entries[..|entries| - 1], entries[|entries| - 1];
      PendingDistinct(os, verify, fs, init);
      PendingIsTheRest(os, verify, fs, init);
      var before := Pending(os, verify, fs, init);
      forall k | 0 <= k < |before| ensures PathsOf(before)[k] != Target(os, last) {
        assert before[k] in before;
      }
      var all := Pending(os, verify, fs, entries);
      assert all == before || PathsOf(all) == PathsOf(before) + [Target(os, last)];
      assert entries == init + [last];
    }
  }

  /** No folder creation or rename fails on its own account, and no target has an undeletable backup. */
  ghost predicate Quiet(world: World, paths: seq<string>) {
    && QuietLoop(world.faults)
    && (forall p :: p in paths ==> p !in world.backupKept)
  }

  /** Entry `k` is staged already, or its download will deliver it. */
  ghost predicate Obtainable(verify: Verifier, fs: Files, pending: seq<G.Entry>, world: World, k: nat)
    requires k < |pending|
  {
    || Verified(verify, fs, Staged(pending[k].path), pending[k].sig)
    || (!world.folderFails(k) && world.fetch(k).ok && world.fetch(k).left.Some? &&
        verify(world.fetch(k).left.value, pending[k].sig))
  }

  lemma {:induction false} DownloadSucceeds(verify: Verifier, fs: Files, pending: seq<G.Entry>, world: World, i: nat)
    requires i <= |pending| && Distinct(PathsOf(pending))
    requires forall k :: i <= k < |pending| ==> Obtainable(verify, fs, pending, world, k)
    ensures var d := Download(verify, fs, pending, world, i);
            && d.ok
            && forall k :: k in d.fetched ==>
                i <= k < |pending| && !Verified(verify, fs, Staged(pending[k].path), pending[k].sig)
    decreases |pending| - i
  {
    if i < |pending| {
      var e := pending[i];
      assert PathsOf(pending)[i] == e.path;
      if Verified(verify, fs, Staged(e.path), e.sig) {
        DownloadSucceeds(verify, fs, pending, world, i + 1);
      } else {
        var got := Put(fs, Staged(e.path), world.fetch(i).left);
        assert Obtainable(verify, fs, pending, world, i);
        assert At(got, Staged(e.path)) == world.fetch(i).left;
        forall k | i + 1 <= k < |pending|
          ensures Obtainable(verify, got, pending, world, k)
          ensures Verified(verify, got, Staged(pending[k].path), pending[k].sig) ==
              Verified(verify, fs, Staged(pending[k].path), pending[k].sig)
        {
          assert PathsOf(pending)[k] == pending[k].path;
          assert Obtainable(verify, fs, pending, world, k);
          assert At(got, Staged(pending[k].path)) == At(fs, Staged(pending[k].path));
        }
        DownloadSucceeds(verify, got, pending, world, i + 1);
      }
    }
  }

  /** Whatever a previous run left behind, an accepted manifest is installed when every file can be
      obtained and nothing fails on its own account; only what was not staged is downloaded. */
  lemma QuietInstallFinishes(
      os: Platform, verify: Verifier, st: Installation, version: int, pending: seq<G.Entry>, world: World)
    requires Distinct(PathsOf(pending)) && Quiet(world, PathsOf(pending))
    requires forall k :: 0 <= k < |pending| ==> Obtainable(verify, st.fs, pending, world, k)
    ensures var r := Install(os, verify, st, version, pending, world);
            && r.finished
            && forall k :: k in r.fetched ==>
                k < |pending| && !Verified(verify, st.fs, Staged(pending[k].path), pending[k].sig)
  {
    var fs0 := Cleaned(st.fs, Backup, world.backupKept);
    var paths := PathsOf(pending);
    forall k | 0 <= k < |pending|
      ensures Obtainable(verify, fs0, pending, world, k)
      ensures Verified(verify, fs0, Staged(pending[k].path), pending[k].sig) ==
          Verified(verify, st.fs, Staged(pending[k].path), pending[k].sig)
    {
      assert Obtainable(verify, st.fs, pending, world, k);
      assert At(fs0, Staged(pending[k].path)) == At(st.fs, Staged(pending[k].path));
    }
    DownloadSucceeds(verify, fs0, pending, world, 0);
    var d := Download(verify, fs0, pending, world, 0);
    forall p | p in paths ensures Path(Backup, p) !in fs0 {
      assert At(fs0, Path(Backup, p)) == None;
    }
    DownloadsPrepare(verify, fs0, pending, world);
    StartsAtStageZero(d.fs, paths);
    NothingElseFails(PolicyOf(os), d.fs, d.fs, paths, world.faults, 0);
  }

  lemma InstalledSurvivesCrash(
      os: Platform, verify: Verifier, fs: Files, d: Files, pending: seq<G.Entry>, crashed: Files, e: G.Entry)
    requires SomeStage(d, crashed, PathsOf(pending)) && Target(os, e) !in PathsOf(pending)
    requires At(d, Path(App, Target(os, e))) == At(fs, Path(App, Target(os, e))) && Installed(os, verify, fs, e)
    ensures Installed(os, verify, crashed, e)
  {
    StageKeepsOriginals(d, crashed, PathsOf(pending));
    assert At(crashed, Path(App, Target(os, e))) == At(fs, Path(App, Target(os, e)));
  }

  lemma StagedSurvivesCrash(verify: Verifier, d: Files, paths: seq<string>, crashed: Files, p: string, sig: string)
    requires SomeStage(d, crashed, paths) && p in paths && Verified(verify, d, Staged(p), sig)
    ensures Verified(verify, crashed, Path(App, p), sig) || Verified(verify, crashed, Staged(p), sig)
  {
    var n: nat, half: bool :| IsStage(d, crashed, paths, n, half);
    assert At(crashed, Path(App, p)) == StageAt(d, paths, n, half, Path(App, p));
    assert At(crashed, Staged(p)) == StageAt(d, paths, n, half, Staged(p));
  }

  lemma PendingIsStaged(verify: Verifier, fs: Files, pending: seq<G.Entry>, world: World, e: G.Entry)
    requires Download(verify, fs, pending, world, 0).ok && Distinct(PathsOf(pending)) && e in pending
    ensures e.path in PathsOf(pending) && Verified(verify, Download(verify, fs, pending, world, 0).fs, Staged(e.path),
        e.sig)
  {
    var k :| 0 <= k < |pending| && pending[k] == e;
    DownloadVerifies(verify, fs, pending, world, 0);
    DistinctAreAllVerified(verify, Download(verify, fs, pending, world, 0).fs, pending, k);
    assert PathsOf(pending)[k] == e.path;
  }

  lemma CrashIsStage(
      os: Platform, verify: Verifier, fs: Files, entries: seq<G.Entry>, d: Files, faults: Faults, crashed: Files)
    requires DistinctTargets(os, entries)
    requires crashed in Forward(PolicyOf(os), d, PathsOf(Pending(os, verify, fs, entries)), faults, 0).states
    ensures Distinct(PathsOf(Pending(os, verify, fs, entries))) && Consistent(os, entries)
    ensures SomeStage(d, crashed, PathsOf(Pending(os, verify, fs, entries)))
  {
    var paths := PathsOf(Pending(os, verify, fs, entries));
    PendingDistinct(os, verify, fs, entries);
    StartsAtStageZero(d, paths);
    ForwardStages(PolicyOf(os), d, d, paths, faults, 0);
  }

  /** At every point of the installation loop each entry is installed, or still staged and verified. */
  lemma CrashLosesNothing(
      os: Platform, verify: Verifier, st: Installation, entries: seq<G.Entry>, world: World, crashed: Files,
      e: G.Entry)
    requires DistinctTargets(os, entries) && e in entries
    requires var pending := Pending(os, verify, st.fs, entries);
             var d := Download(verify, Cleaned(st.fs, Backup, world.backupKept), pending, world, 0);
             d.ok && crashed in Forward(PolicyOf(os), d.fs, PathsOf(pending), world.faults, 0).states
    ensures Installed(os, verify, crashed, e) || Verified(verify, crashed, Staged(Target(os, e)), e.sig)
  {
    var pending := Pending(os, verify, st.fs, entries);
    var paths := PathsOf(pending);
    var fs0 := Cleaned(st.fs, Backup, world.backupKept);
    var d := Download(verify, fs0, pending, world, 0);
    var p := Target(os, e);
    CrashIsStage(os, verify, st.fs, entries, d.fs, world.faults, crashed);
    if Installed(os, verify, st.fs, e) {
      SkippedIsNotPending(os, verify, st.fs, entries, e);
      DownloadOnlyStages(verify, fs0, pending, world, 0, Path(App, p));
      InstalledSurvivesCrash(os, verify, st.fs, d.fs, pending, crashed, e);
    } else {
      PendingIsTheRest(os, verify, st.fs, entries);
      PendingIsStaged(verify, fs0, pending, world, e.(path := p));
      StagedSurvivesCrash(verify, d.fs, paths, crashed, p, e.sig);
    }
  }

  lemma EmptyOrHasFirst(s: seq<nat>)
    ensures s == [] || s[0] in s
  {}

  /** A run that accepted the manifest, with a target per entry, and died in its installation loop at `crashed`. */
  ghost predicate DiedInstalling(os: Platform, verify: Verifier, st: Installation, world: World, crashed: Files) {
    && world.manifest.Some?
    && Judge(os, verify, st.fs, st.version, world.manifest.value).Accepted?
    && DistinctTargets(os, BodyOf(world.manifest.value).entries)
    && var pending := Judge(os, verify, st.fs, st.version, world.manifest.value).pending;
       var d := Download(verify, Cleaned(st.fs, Backup, world.backupKept), pending, world, 0);
       d.ok && crashed in Forward(PolicyOf(os), d.fs, PathsOf(pending), world.faults, 0).states
  }

  /** If the process dies after any prefix of the installation's renames, with no rollback, a quiet rerun
      on the same manifest ends with every entry verified in the application folder and downloads nothing.
      It reaches its final cleanup, and so writes the version, exactly when something was left to install. */
  lemma CrashConverges(os: Platform, verify: Verifier, st: Installation, world: World, crashed: Files, again: World)
    ensures DiedInstalling(os, verify, st, world, crashed) && again.manifest == world.manifest ==>
              var entries := BodyOf(world.manifest.value).entries;
              var r := Check(os, verify, Installation(crashed, st.version), again);
              Quiet(again, PathsOf(Pending(os, verify, crashed, entries))) ==>
                && r.fetched == []
                && (forall e :: e in entries ==> Installed(os, verify, r.after.fs, e))
                && (r.finished <==> exists e :: e in entries && !Installed(os, verify, crashed, e))
  {
    if DiedInstalling(os, verify, st, world, crashed) && again.manifest == world.manifest
      && Quiet(again, PathsOf(Pending(os, verify, crashed, BodyOf(world.manifest.value).entries)))
    {
      var text, now := world.manifest.value, Installation(crashed, st.version);
      LeftIsAllStaged(os, verify, st, world, crashed);
      JudgedAgain(os, verify, st.fs, crashed, st.version, text);
      RerunReport(os, verify, now, Judge(os, verify, st.fs, st.version, text).version, BodyOf(text).entries, again);
      SomethingLeftExactly(os, verify, crashed, BodyOf(text).entries);
    }
  }

  lemma LeftIsStaged(os: Platform, verify: Verifier, st: Installation, world: World, crashed: Files, k: nat)
    requires DiedInstalling(os, verify, st, world, crashed)
    requires k < |Pending(os, verify, crashed, BodyOf(world.manifest.value).entries)|
    ensures var e := Pending(os, verify, crashed, BodyOf(world.manifest.value).entries)[k];
            Verified(verify, crashed, Staged(e.path), e.sig)
  {
    var entries := BodyOf(world.manifest.value).entries;
    var left := Pending(os, verify, crashed, entries);
    PendingIsTheRest(os, verify, crashed, entries);
    assert left[k] in left;
    var e :| e in entries && !Installed(os, verify, crashed, e) && left[k] == e.(path := Target(os, e));
    CrashLosesNothing(os, verify, st, entries, world, crashed, e);
  }

  ghost predicate AllStaged(verify: Verifier, fs: Files, pending: seq<G.Entry>) {
    forall k :: 0 <= k < |pending| ==> Verified(verify, fs, Staged(pending[k].path), pending[k].sig)
  }

  /** With everything pending staged already, a quiet installation finishes without a download. */
  lemma StagedInstallFinishes(
      os: Platform, verify: Verifier, st: Installation, version: int, entries: seq<G.Entry>, world: World)
    requires DistinctTargets(os, entries) && Quiet(world, PathsOf(Pending(os, verify, st.fs, entries)))
    requires AllStaged(verify, st.fs, Pending(os, verify, st.fs, entries))
    ensures var r := Install(os, verify, st, version, Pending(os, verify, st.fs, entries), world);
            r.finished && r.fetched == [] && forall e :: e in entries ==> Installed(os, verify, r.after.fs, e)
  {
    var pending := Pending(os, verify, st.fs, entries);
    PendingDistinct(os, verify, st.fs, entries);
    forall k | 0 <= k < |pending| ensures Obtainable(verify, st.fs, pending, world, k) {
      assert Verified(verify, st.fs, Staged(pending[k].path), pending[k].sig);
    }
    QuietInstallFinishes(os, verify, st, version, pending, world);
    EmptyOrHasFirst(Install(os, verify, st, version, pending, world).fetched);
    InstallVerifiesEntries(os, verify, st, version, entries, world);
  }

  lemma LeftIsAllStaged(os: Platform, verify: Verifier, st: Installation, world: World, crashed: Files)
    requires DiedInstalling(os, verify, st, world, crashed)
    ensures AllStaged(verify, crashed, Pending(os, verify, crashed, BodyOf(world.manifest.value).entries))
  {
    var left := Pending(os, verify, crashed, BodyOf(world.manifest.value).entries);
    forall k | 0 <= k < |left| ensures Verified(verify, crashed, Staged(left[k].path), left[k].sig) {
      LeftIsStaged(os, verify, st, world, crashed, k);
    }
  }

  /** What is on disk decides only what is still pending, not whether the manifest is good. */
  lemma JudgedAgain(os: Platform, verify: Verifier, fs: Files, crashed: Files, current: int, text: string)
    requires Judge(os, verify, fs, current, text).Accepted?
    ensures BodyOf(text).Body?
    ensures var left := Pending(os, verify, crashed, BodyOf(text).entries);
            Judge(os, verify, crashed, current, text) ==
            if left == [] then Rejected else Accepted(Judge(os, verify, fs, current, text).version, left)
  {}

  lemma SomethingLeftExactly(os: Platform, verify: Verifier, fs: Files, entries: seq<G.Entry>)
    ensures Pending(os, verify, fs, entries) != [] <==> exists e :: e in entries && !Installed(os, verify, fs, e)
  {
    var left := Pending(os, verify, fs, entries);
    PendingIsTheRest(os, verify, fs, entries);
    if left != [] {
      assert left[0] in left;
    }
  }

  lemma RerunReport(
      os: Platform, verify: Verifier, st: Installation, version: int, entries: seq<G.Entry>, again: World)
    requires DistinctTargets(os, entries) && again.manifest.Some?
    requires var left := Pending(os, verify, st.fs, entries);
             && AllStaged(verify, st.fs, left) && Quiet(again, PathsOf(left))
             && Judge(os, verify, st.fs, st.version, again.manifest.value) ==
                if left == [] then Rejected else Accepted(version, left)
    ensures var r := Check(os, verify, st, again);
            && r.fetched == []
            && (forall e :: e in entries ==> Installed(os, verify, r.after.fs, e))
            && (r.finished <==> Pending(os, verify, st.fs, entries) != [])
  {
    if Pending(os, verify, st.fs, entries) == [] {
      SomethingLeftExactly(os, verify, st.fs, entries);
    } else {
      StagedInstallFinishes(os, verify, st, version, entries, again);
    }
  }

  // ----- From the generator to the installed files -----

  lemma AcceptedUpdateArrives(
      os: Platform, verify: Verifier, st: Installation, world: World, version: int, entries: seq<G.Entry>)
    requires world.manifest.Some? && world.versionWritable && DistinctTargets(os, entries)
    requires var pending := Pending(os, verify, st.fs, entries);
             && Judge(os, verify, st.fs, st.version, world.manifest.value) == Accepted(version, pending)
             && Quiet(world, PathsOf(pending))
             && forall k :: 0 <= k < |pending| ==> Obtainable(verify, st.fs, pending, world, k)
    ensures var r := Check(os, verify, st, world);
            && r.finished && r.after.version == version
            && forall e :: e in entries ==> Installed(os, verify, r.after.fs, e)
  {
    PendingDistinct(os, verify, st.fs, entries);
    QuietInstallFinishes(os, verify, st, version, Pending(os, verify, st.fs, entries), world);
    InstallVerifiesEntries(os, verify, st, version, entries, world);
  }

  /** A manifest from the generator, canonically numbered and signed by the matching key, installs: when every
      file can be obtained and nothing fails on its own account, each entry ends up verified in the
      application folder and the new version is recorded. */
  lemma PublishedUpdateArrives(
      text: string, env: G.Environment, os: Platform, verify: Verifier, st: Installation, world: World)
    requires ReadableOutcome(G.Generate(text, env)) && st.version != -1
    requires verify(G.Generate(text, env).stream, G.Generate(text, env).sig)
    requires VersionText(text) == Decimal.Print(Decimal.Strtol(VersionText(text)))
    requires -Decimal.INT_MAX - 1 <= st.version < G.Generate(text, env).version <= Decimal.INT_MAX
    requires DistinctTargets(os, G.Generate(text, env).entries)
    requires world.manifest == Some(G.PrintManifest(G.Generate(text, env))) && world.versionWritable
    requires var pending := Pending(os, verify, st.fs, G.Generate(text, env).entries);
             && pending != []
             && Quiet(world, PathsOf(pending))
             && forall k :: 0 <= k < |pending| ==> Obtainable(verify, st.fs, pending, world, k)
    ensures var r := Check(os, verify, st, world);
            && r.finished && r.after.version == G.Generate(text, env).version
            && forall e :: e in G.Generate(text, env).entries ==> Installed(os, verify, r.after.fs, e)
  {
    SignedManifestIsFollowed(text, env, os, verify, st.fs, st.version);
    AcceptedUpdateArrives(os, verify, st, world, G.Generate(text, env).version, G.Generate(text, env).entries);
  }
}
