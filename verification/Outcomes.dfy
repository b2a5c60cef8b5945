/** How a run of the updater ends, told from the files it found and what the world did to it. */
module Outcomes {
  import opened Wrappers
  import opened FileSystem
  import opened Installer
  import opened Manifest
  import opened Updater
  import opened Runs
  import G = Generator
  import Decimal

  // ----- The downloads -----

  /** The files when entry `k` is looked at, if all entries before it were got. */
  function Upto(verify: Verifier, fs: Files, pending: seq<G.Entry>, world: World, k: nat): Files
    requires k <= |pending|
  {
    if k == 0 then fs
    else
      var before, e := Upto(verify, fs, pending, world, k - 1), pending[k - 1];
      if Verified(verify, before, Staged(e.path), e.sig) then before
      else Put(before, Staged(e.path), world.fetch(k - 1).left)
  }

  /** Entry `k` is found staged when its turn comes. */
  ghost predicate Found(verify: Verifier, fs: Files, pending: seq<G.Entry>, world: World, k: nat)
    requires k < |pending|
  {
    Verified(verify, Upto(verify, fs, pending, world, k), Staged(pending[k].path), pending[k].sig)
  }

  /** The download of entry `k` reports success and leaves content that verifies. */
  ghost predicate Delivered(verify: Verifier, pending: seq<G.Entry>, world: World, k: nat)
    requires k < |pending|
  {
    && world.fetch(k).ok && world.fetch(k).left.Some?
    && verify(world.fetch(k).left.value, pending[k].sig)
  }

  /** Entry `k` is found staged, or its folder can be made and its download delivers it. */
  ghost predicate Got(verify: Verifier, fs: Files, pending: seq<G.Entry>, world: World, k: nat)
    requires k < |pending|
  {
    Found(verify, fs, pending, world, k) || (!world.folderFails(k) && Delivered(verify, pending, world, k))
  }

  /** Entries `i` to `n` are all got. */
  ghost predicate AllGot(verify: Verifier, fs: Files, pending: seq<G.Entry>, world: World, i: nat, n: nat)
    requires n <= |pending|
  {
    forall k :: i <= k < n ==> Got(verify, fs, pending, world, k)
  }

  lemma PutIsVerified(verify: Verifier, fs: Files, q: Path, c: Option<Content>, sig: string)
    ensures Verified(verify, Put(fs, q, c), q, sig) <==> c.Some? && verify(c.value, sig)
  {
    assert At(Put(fs, q, c), q) == c;
  }

  /** Entry `k` is fetched: it is not found staged, its folder can be made, and all entries before it are got. */
  ghost predicate Fetched(verify: Verifier, fs: Files, pending: seq<G.Entry>, world: World, i: nat, k: nat)
    requires k < |pending|
  {
    && !Found(verify, fs, pending, world, k) && !world.folderFails(k)
    && AllGot(verify, fs, pending, world, i, k)
  }

  /** Entry `k` is the first that is not got. */
  ghost predicate StopsAt(verify: Verifier, fs: Files, pending: seq<G.Entry>, world: World, i: nat, k: nat)
    requires k < |pending|
  {
    !Got(verify, fs, pending, world, k) && AllGot(verify, fs, pending, world, i, k)
  }

  /** Whether the loop succeeds from entry `i` on, and what it leaves. */
  ghost predicate LeavesAsSaid(
      verify: Verifier, fs: Files, pending: seq<G.Entry>, world: World, i: nat, d: Downloads)
    requires i <= |pending|
  {
    && (d.ok <==> AllGot(verify, fs, pending, world, i, |pending|))
    && (d.ok ==> d.fs == Upto(verify, fs, pending, world, |pending|))
    && (forall k :: i <= k < |pending| && StopsAt(verify, fs, pending, world, i, k) ==>
          d.fs == Upto(verify, fs, pending, world, if world.folderFails(k) then k else k + 1))
  }

  /** What it fetches, in order. */
  ghost predicate FetchesAsSaid(
      verify: Verifier, fs: Files, pending: seq<G.Entry>, world: World, i: nat, fetched: seq<nat>)
    requires i <= |pending|
  {
    && (forall k :: k in fetched <==> i <= k < |pending| && Fetched(verify, fs, pending, world, i, k))
    && (forall a, b :: 0 <= a < b < |fetched| ==> fetched[a] < fetched[b])
  }

  lemma GotFirst(verify: Verifier, fs: Files, pending: seq<G.Entry>, world: World, i: nat)
    requires i < |pending|
    ensures AllGot(verify, fs, pending, world, i, i)
    ensures forall k :: i < k <= |pending| ==>
              (AllGot(verify, fs, pending, world, i, k) <==>
               Got(verify, fs, pending, world, i) && AllGot(verify, fs, pending, world, i + 1, k))
  {}

  lemma OneDownload(verify: Verifier, fs: Files, pending: seq<G.Entry>, world: World, i: nat)
    requires i < |pending|
    ensures var now := Upto(verify, fs, pending, world, i);
            var d := Download(verify, now, pending, world, i);
            var rest := Download(verify, Upto(verify, fs, pending, world, i + 1), pending, world, i + 1);
            if Found(verify, fs, pending, world, i) then d == rest
            else if world.folderFails(i) then d == Downloads(now, false, [])
            else if Delivered(verify, pending, world, i) then d == Later([i], rest)
            else d == Downloads(Upto(verify, fs, pending, world, i + 1), false, [i])
  {
    var now, q := Upto(verify, fs, pending, world, i), Staged(pending[i].path);
    PutIsVerified(verify, now, q, world.fetch(i).left, pending[i].sig);
  }

  lemma LeavesOneMore(verify: Verifier, fs: Files, pending: seq<G.Entry>, world: World, i: nat, rest: Downloads)
    requires i < |pending| && Got(verify, fs, pending, world, i)
    requires LeavesAsSaid(verify, fs, pending, world, i + 1, rest)
    ensures LeavesAsSaid(verify, fs, pending, world, i, rest)
  {
    GotFirst(verify, fs, pending, world, i);
    forall k | i <= k < |pending| && StopsAt(verify, fs, pending, world, i, k)
      ensures i < k && StopsAt(verify, fs, pending, world, i + 1, k)
    {}
  }

  lemma StopsHere(verify: Verifier, fs: Files, pending: seq<G.Entry>, world: World, i: nat, d: Downloads)
    requires i < |pending| && !Got(verify, fs, pending, world, i) && !d.ok
    requires d.fs == Upto(verify, fs, pending, world, if world.folderFails(i) then i else i + 1)
    ensures LeavesAsSaid(verify, fs, pending, world, i, d)
  {
    GotFirst(verify, fs, pending, world, i);
  }

  lemma {:induction false} LeavesFrom(verify: Verifier, fs: Files, pending: seq<G.Entry>, world: World, i: nat)
    requires i <= |pending|
    ensures LeavesAsSaid(verify, fs, pending, world, i,
              Download(verify, Upto(verify, fs, pending, world, i), pending, world, i))
    decreases |pending| - i
  {
    if i < |pending| {
      var rest := Download(verify, Upto(verify, fs, pending, world, i + 1), pending, world, i + 1);
      LeavesFrom(verify, fs, pending, world, i + 1);
      OneDownload(verify, fs, pending, world, i);
      if Got(verify, fs, pending, world, i) {
        LeavesOneMore(verify, fs, pending, world, i, rest);
      } else {
        StopsHere(verify, fs, pending, world, i,
          Download(verify, Upto(verify, fs, pending, world, i), pending, world, i));
      }
    }
  }

  lemma FetchesOneMore(verify: Verifier, fs: Files, pending: seq<G.Entry>, world: World, i: nat, rest: seq<nat>)
    requires i < |pending| && Got(verify, fs, pending, world, i)
    requires FetchesAsSaid(verify, fs, pending, world, i + 1, rest)
    ensures FetchesAsSaid(verify, fs, pending, world, i,
              if Found(verify, fs, pending, world, i) then rest else [i] + rest)
  {
    var fetched := if Found(verify, fs, pending, world, i) then rest else [i] + rest;
    GotFirst(verify, fs, pending, world, i);
    forall k | i < k < |pending|
      ensures Fetched(verify, fs, pending, world, i, k) <==> Fetched(verify, fs, pending, world, i + 1, k)
    {}
    forall a, b | 0 <= a < b < |fetched| ensures fetched[a] < fetched[b] {
      assert fetched != rest ==> fetched[b] == rest[b - 1] && rest[b - 1] in rest;
    }
  }

  lemma FetchesNoMore(verify: Verifier, fs: Files, pending: seq<G.Entry>, world: World, i: nat)
    requires i < |pending| && !Got(verify, fs, pending, world, i)
    ensures FetchesAsSaid(verify, fs, pending, world, i, if world.folderFails(i) then [] else [i])
  {
    GotFirst(verify, fs, pending, world, i);
  }

  lemma {:induction false} FetchesFrom(verify: Verifier, fs: Files, pending: seq<G.Entry>, world: World, i: nat)
    requires i <= |pending|
    ensures FetchesAsSaid(verify, fs, pending, world, i,
              Download(verify, Upto(verify, fs, pending, world, i), pending, world, i).fetched)
    decreases |pending| - i
  {
    if i < |pending| {
      FetchesFrom(verify, fs, pending, world, i + 1);
      OneDownload(verify, fs, pending, world, i);
      if Got(verify, fs, pending, world, i) {
        FetchesOneMore(verify, fs, pending, world, i,
          Download(verify, Upto(verify, fs, pending, world, i + 1), pending, world, i + 1).fetched);
      } else {
        FetchesNoMore(verify, fs, pending, world, i);
      }
    }
  }

  /** The downloads succeed exactly when every entry is got; they fetch, in order, exactly the entries not found
      staged up to the first that is not got; and they leave what those fetches left. */
  lemma DownloadExactly(verify: Verifier, fs: Files, pending: seq<G.Entry>, world: World)
    ensures var d := Download(verify, fs, pending, world, 0);
            LeavesAsSaid(verify, fs, pending, world, 0, d) && FetchesAsSaid(verify, fs, pending, world, 0, d.fetched)
  {
    LeavesFrom(verify, fs, pending, world, 0);
    FetchesFrom(verify, fs, pending, world, 0);
  }

  lemma {:induction false} UptoLeavesOthers(
      verify: Verifier, fs: Files, pending: seq<G.Entry>, world: World, k: nat, q: Path)
    requires k <= |pending| && forall m :: 0 <= m < k ==> q != Staged(pending[m].path)
    ensures At(Upto(verify, fs, pending, world, k), q) == At(fs, q)
  {
    if k > 0 {
      UptoLeavesOthers(verify, fs, pending, world, k - 1, q);
    }
  }

  /** What lies staged for entry `m`, whose path is its own, once it was its turn. */
  function StagedContent(verify: Verifier, fs: Files, pending: seq<G.Entry>, world: World, m: nat): Option<Content>
    requires m < |pending|
  {
    if Verified(verify, fs, Staged(pending[m].path), pending[m].sig) then At(fs, Staged(pending[m].path))
    else world.fetch(m).left
  }

  lemma {:induction false} UptoStages(
      verify: Verifier, fs: Files, pending: seq<G.Entry>, world: World, k: nat, m: nat)
    requires m < k <= |pending| && Distinct(PathsOf(pending))
    ensures At(Upto(verify, fs, pending, world, k), Staged(pending[m].path)) ==
            StagedContent(verify, fs, pending, world, m)
  {
    assert forall n :: 0 <= n < |pending| ==> PathsOf(pending)[n] == pending[n].path;
    if m == k - 1 {
      UptoLeavesOthers(verify, fs, pending, world, k - 1, Staged(pending[m].path));
    } else {
      UptoStages(verify, fs, pending, world, k - 1, m);
    }
  }

  lemma FoundAtStart(verify: Verifier, fs: Files, pending: seq<G.Entry>, world: World, k: nat)
    requires k < |pending| && Distinct(PathsOf(pending))
    ensures Found(verify, fs, pending, world, k) <==> Verified(verify, fs, Staged(pending[k].path), pending[k].sig)
    ensures Got(verify, fs, pending, world, k) <==> Obtainable(verify, fs, pending, world, k)
  {
    assert forall n :: 0 <= n < |pending| ==> PathsOf(pending)[n] == pending[n].path;
    UptoLeavesOthers(verify, fs, pending, world, k, Staged(pending[k].path));
    assert At(Upto(verify, fs, pending, world, k), Staged(pending[k].path)) == At(fs, Staged(pending[k].path));
  }

  lemma ObtainableAfterCleanup(
      verify: Verifier, fs: Files, pending: seq<G.Entry>, world: World, kept: set<string>, k: nat)
    requires k < |pending|
    ensures Obtainable(verify, Cleaned(fs, Backup, kept), pending, world, k) <==>
            Obtainable(verify, fs, pending, world, k)
  {
    assert At(Cleaned(fs, Backup, kept), Staged(pending[k].path)) == At(fs, Staged(pending[k].path));
  }

  // ----- When an accepted update goes through -----

  /** Nothing strikes entry `k` on disk: its folders, its move in and, if its target is installed, its move out. */
  ghost predicate Undisturbed(os: Platform, fs: Files, p: string, world: World, k: nat) {
    && !world.faults.backupFolder(k) && !world.faults.targetFolder(k) && !world.faults.moveIn(k)
    && (Path(App, p) in fs ==>
          && !world.faults.moveOut(k)
          && (os == Windows ==> p !in world.backupKept || Path(Backup, p) !in fs))
  }

  /** The files after the initial cleanup and successful downloads, path by path. */
  lemma AfterDownloads(verify: Verifier, fs: Files, pending: seq<G.Entry>, world: World, q: Path)
    requires Download(verify, Cleaned(fs, Backup, world.backupKept), pending, world, 0).ok
    ensures var d := Download(verify, Cleaned(fs, Backup, world.backupKept), pending, world, 0);
            && (q.root == App ==> At(d.fs, q) == At(fs, q))
            && (q.root == Backup ==> At(d.fs, q) == if q.rel in world.backupKept then At(fs, q) else None)
            && (q.root == Update && q.rel !in PathsOf(pending) ==> At(d.fs, q) == At(fs, q))
  {
    if q.root != Update || q.rel !in PathsOf(pending) {
      DownloadOnlyStages(verify, Cleaned(fs, Backup, world.backupKept), pending, world, 0, q);
    }
  }

  lemma DownloadedIsStaged(verify: Verifier, fs: Files, pending: seq<G.Entry>, world: World, k: nat)
    requires k < |pending| && Distinct(PathsOf(pending))
    requires Download(verify, Cleaned(fs, Backup, world.backupKept), pending, world, 0).ok
    ensures var d := Download(verify, Cleaned(fs, Backup, world.backupKept), pending, world, 0);
            At(d.fs, Staged(pending[k].path)) == StagedContent(verify, fs, pending, world, k)
  {
    var fs0 := Cleaned(fs, Backup, world.backupKept);
    DownloadExactly(verify, fs0, pending, world);
    UptoStages(verify, fs0, pending, world, |pending|, k);
    assert At(fs0, Staged(pending[k].path)) == At(fs, Staged(pending[k].path));
  }

  lemma InstallsAfterDownloads(
      os: Platform, verify: Verifier, fs: Files, pending: seq<G.Entry>, world: World, k: nat)
    requires k < |pending| && Download(verify, Cleaned(fs, Backup, world.backupKept), pending, world, 0).ok
    ensures var d := Download(verify, Cleaned(fs, Backup, world.backupKept), pending, world, 0);
            Installs(PolicyOf(os), d.fs, pending[k].path, world.faults, k) <==>
            Undisturbed(os, fs, pending[k].path, world, k)
  {
    var p := pending[k].path;
    assert PathsOf(pending)[k] == p;
    AfterDownloads(verify, fs, pending, world, Path(App, p));
    AfterDownloads(verify, fs, pending, world, Path(Backup, p));
    DownloadsStage(verify, Cleaned(fs, Backup, world.backupKept), pending, world, p);
  }

  lemma DownloadsOkExactly(verify: Verifier, fs: Files, pending: seq<G.Entry>, world: World)
    requires Distinct(PathsOf(pending))
    ensures Download(verify, Cleaned(fs, Backup, world.backupKept), pending, world, 0).ok <==>
            forall k :: 0 <= k < |pending| ==> Obtainable(verify, fs, pending, world, k)
  {
    var fs0 := Cleaned(fs, Backup, world.backupKept);
    DownloadExactly(verify, fs0, pending, world);
    forall k | 0 <= k < |pending|
      ensures Got(verify, fs0, pending, world, k) <==> Obtainable(verify, fs, pending, world, k)
    {
      FoundAtStart(verify, fs0, pending, world, k);
      ObtainableAfterCleanup(verify, fs, pending, world, world.backupKept, k);
    }
  }

  /** From the initial cleanup on a run finishes exactly when the targets are distinct, every entry can be obtained,
      and nothing strikes it on disk. */
  lemma InstallFinishesExactly(
      os: Platform, verify: Verifier, st: Installation, version: int, pending: seq<G.Entry>, world: World)
    ensures Install(os, verify, st, version, pending, world).finished <==>
            && Distinct(PathsOf(pending))
            && (forall k :: 0 <= k < |pending| ==> Obtainable(verify, st.fs, pending, world, k))
            && (forall k :: 0 <= k < |pending| ==> Undisturbed(os, st.fs, pending[k].path, world, k))
  {
    var d := Download(verify, Cleaned(st.fs, Backup, world.backupKept), pending, world, 0);
    if Distinct(PathsOf(pending)) {
      DownloadsOkExactly(verify, st.fs, pending, world);
    }
    if d.ok {
      SucceedsExactly(PolicyOf(os), d.fs, PathsOf(pending), world.faults);
      forall k | 0 <= k < |pending|
        ensures Installs(PolicyOf(os), d.fs, PathsOf(pending)[k], world.faults, k) <==>
                Undisturbed(os, st.fs, pending[k].path, world, k)
      {
        InstallsAfterDownloads(os, verify, st.fs, pending, world, k);
      }
    }
  }

  /** What stands at `q` after a finished run: the new content at each target, its original in the backup, nothing
      in the update folder or older in the backup that could be deleted, everything else as it was. */
  lemma FinishedInstallLeaves(
      os: Platform, verify: Verifier, st: Installation, version: int, pending: seq<G.Entry>, world: World, q: Path)
    requires Install(os, verify, st, version, pending, world).finished
    ensures var after := Install(os, verify, st, version, pending, world).after.fs;
            var targeted := q.rel in PathsOf(pending);
            match q.root
            case App =>
              && (!targeted ==> At(after, q) == At(st.fs, q))
              && forall k :: 0 <= k < |pending| && pending[k].path == q.rel ==>
                   At(after, q) == StagedContent(verify, st.fs, pending, world, k)
            case Update => At(after, q) == if q.rel in world.updateKept && !targeted then At(st.fs, q) else None
            case Backup =>
              At(after, q) ==
                if targeted && Path(App, q.rel) in st.fs then At(st.fs, Path(App, q.rel))
                else if q.rel in world.backupKept then At(st.fs, q)
                else None
  {
    var paths := PathsOf(pending);
    var d := Download(verify, Cleaned(st.fs, Backup, world.backupKept), pending, world, 0);
    SuccessInstallsEverything(PolicyOf(os), d.fs, paths, world.faults);
    assert paths[..|paths|] == paths;
    var put := Perform(PolicyOf(os), d.fs, paths, world.faults).0;
    assert At(put, q) == StageAt(d.fs, paths, |paths|, false, q);
    AfterDownloads(verify, st.fs, pending, world, q);
    AfterDownloads(verify, st.fs, pending, world, Path(App, q.rel));
    assert Path(App, q.rel) in d.fs <==> Path(App, q.rel) in st.fs by {
      assert At(d.fs, Path(App, q.rel)) == At(st.fs, Path(App, q.rel));
    }
    if q.root == App {
      forall k | 0 <= k < |pending| && pending[k].path == q.rel
        ensures At(put, q) == StagedContent(verify, st.fs, pending, world, k)
      {
        assert paths[k] == q.rel;
        DownloadedIsStaged(verify, st.fs, pending, world, k);
      }
    }
  }

  // ----- Whole runs -----

  /** A run finishes exactly when it accepts its manifest, the targets still pending are distinct, each of their
      entries can be obtained, and nothing strikes it on disk. */
  lemma FinishesExactly(os: Platform, verify: Verifier, st: Installation, world: World)
    ensures Check(os, verify, st, world).finished <==>
            && world.manifest.Some?
            && var verdict := Judge(os, verify, st.fs, st.version, world.manifest.value);
               && verdict.Accepted?
               && Distinct(PathsOf(verdict.pending))
               && (forall k :: 0 <= k < |verdict.pending| ==> Obtainable(verify, st.fs, verdict.pending, world, k))
               && forall k :: 0 <= k < |verdict.pending| ==>
                    Undisturbed(os, st.fs, verdict.pending[k].path, world, k)
  {
    if world.manifest.Some? && Judge(os, verify, st.fs, st.version, world.manifest.value).Accepted? {
      var verdict := Judge(os, verify, st.fs, st.version, world.manifest.value);
      InstallFinishesExactly(os, verify, st, verdict.version, verdict.pending, world);
    }
  }

  /** Path by path, what a finished run leaves. */
  lemma FinishedLeaves(os: Platform, verify: Verifier, st: Installation, world: World, q: Path)
    ensures Check(os, verify, st, world).finished ==>
              && world.manifest.Some? && BodyOf(world.manifest.value).Body?
              && var after := Check(os, verify, st, world).after.fs;
                 var pending := Pending(os, verify, st.fs, BodyOf(world.manifest.value).entries);
                 var targeted := q.rel in PathsOf(pending);
                 match q.root
                 case App =>
                   && (!targeted ==> At(after, q) == At(st.fs, q))
                   && forall k :: 0 <= k < |pending| && pending[k].path == q.rel ==>
                        At(after, q) == StagedContent(verify, st.fs, pending, world, k)
                 case Update => At(after, q) == if q.rel in world.updateKept && !targeted then At(st.fs, q) else None
                 case Backup =>
                   At(after, q) ==
                     if targeted && Path(App, q.rel) in st.fs then At(st.fs, Path(App, q.rel))
                     else if q.rel in world.backupKept then At(st.fs, q)
                     else None
  {
    if Check(os, verify, st, world).finished {
      var text := world.manifest.value;
      AcceptedFacts(os, verify, st.fs, st.version, text);
      FinishedInstallLeaves(os, verify, st, Judge(os, verify, st.fs, st.version, text).version,
        Pending(os, verify, st.fs, BodyOf(text).entries), world, q);
    }
  }

  /** A run whose downloads stop at entry `k` has emptied the backup and kept what it fetched, for the next run
      to find; the application folder and the version are as they were. */
  lemma StoppedDownloadLeaves(
      os: Platform, verify: Verifier, st: Installation, world: World, k: nat, q: Path)
    requires world.manifest.Some? && Judge(os, verify, st.fs, st.version, world.manifest.value).Accepted?
    requires var pending := Judge(os, verify, st.fs, st.version, world.manifest.value).pending;
             && Distinct(PathsOf(pending)) && k < |pending|
             && !Obtainable(verify, st.fs, pending, world, k)
             && forall m :: 0 <= m < k ==> Obtainable(verify, st.fs, pending, world, m)
    ensures var r := Check(os, verify, st, world);
            var pending := Judge(os, verify, st.fs, st.version, world.manifest.value).pending;
            && !r.finished && r.after.version == st.version
            && (q.root == App ==> At(r.after.fs, q) == At(st.fs, q))
            && (q.root == Backup ==> At(r.after.fs, q) == if q.rel in world.backupKept then At(st.fs, q) else None)
            && (q.root == Update && q.rel !in PathsOf(pending) ==> At(r.after.fs, q) == At(st.fs, q))
            && forall m :: 0 <= m < |pending| ==>
                 At(r.after.fs, Staged(pending[m].path)) ==
                   if m < k || (m == k && !world.folderFails(k)) then StagedContent(verify, st.fs, pending, world, m)
                   else At(st.fs, Staged(pending[m].path))
  {
    var verdict := Judge(os, verify, st.fs, st.version, world.manifest.value);
    StoppedInstallLeaves(os, verify, st, verdict.version, verdict.pending, world, k, q);
  }

  lemma StoppedInstallLeaves(
      os: Platform, verify: Verifier, st: Installation, version: int, pending: seq<G.Entry>, world: World,
      k: nat, q: Path)
    requires Distinct(PathsOf(pending)) && k < |pending| && !Obtainable(verify, st.fs, pending, world, k)
    requires forall m :: 0 <= m < k ==> Obtainable(verify, st.fs, pending, world, m)
    ensures var r := Install(os, verify, st, version, pending, world);
            && !r.finished && r.after.version == st.version
            && (q.root == App ==> At(r.after.fs, q) == At(st.fs, q))
            && (q.root == Backup ==> At(r.after.fs, q) == if q.rel in world.backupKept then At(st.fs, q) else None)
            && (q.root == Update && q.rel !in PathsOf(pending) ==> At(r.after.fs, q) == At(st.fs, q))
            && forall m :: 0 <= m < |pending| ==>
                 At(r.after.fs, Staged(pending[m].path)) ==
                   if m < k || (m == k && !world.folderFails(k)) then StagedContent(verify, st.fs, pending, world, m)
                   else At(st.fs, Staged(pending[m].path))
  {
    var fs0 := Cleaned(st.fs, Backup, world.backupKept);
    var d := Download(verify, fs0, pending, world, 0);
    var n := if world.folderFails(k) then k else k + 1;
    DownloadExactly(verify, fs0, pending, world);
    forall m | 0 <= m < |pending|
      ensures Got(verify, fs0, pending, world, m) <==> Obtainable(verify, st.fs, pending, world, m)
    {
      FoundAtStart(verify, fs0, pending, world, m);
      ObtainableAfterCleanup(verify, st.fs, pending, world, world.backupKept, m);
    }
    assert StopsAt(verify, fs0, pending, world, 0, k);
    assert !d.ok && d.fs == Upto(verify, fs0, pending, world, n);
    if q.root != Update || q.rel !in PathsOf(pending) {
      DownloadOnlyStages(verify, fs0, pending, world, 0, q);
    }
    forall m | 0 <= m < |pending|
      ensures At(d.fs, Staged(pending[m].path)) ==
                if m < n then StagedContent(verify, st.fs, pending, world, m) else At(st.fs, Staged(pending[m].path))
    {
      assert forall x :: 0 <= x < |pending| ==> PathsOf(pending)[x] == pending[x].path;
      assert At(fs0, Staged(pending[m].path)) == At(st.fs, Staged(pending[m].path));
      if m < n {
        UptoStages(verify, fs0, pending, world, n, m);
      } else {
        UptoLeavesOthers(verify, fs0, pending, world, n, Staged(pending[m].path));
      }
    }
  }
}
