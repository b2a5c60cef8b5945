/** `UpdateTask::checkForUpdates`: one run of the self-updater, and sequences of runs. */
module Updater {
  import opened Wrappers
  import opened FileSystem
  import opened Installer
  import opened Manifest
  import Text
  import Decimal
  import G = Generator

  /** A download: whether it reported success, and what it left at the destination. */
  datatype Fetch = Fetch(ok: bool, left: Option<Content>)

  /** Everything a run depends on that is not on disk beforehand. */
  datatype World = World(
    manifest: Option<string>,
    backupKept: set<string>,       // backup files that cannot be deleted
    updateKept: set<string>,       // staged files that cannot be deleted
    folderFails: nat -> bool,
    fetch: nat -> Fetch,
    faults: Faults,
    versionWritable: bool)

  /** The files, and the number in the version file (-1 when it cannot be read). */
  datatype Installation = Installation(fs: Files, version: int)

  datatype Report = Report(after: Installation, finished: bool, fetched: seq<nat>)

  function PolicyOf(os: Platform): Policy {
    if os == Windows then Refuse else Replace
  }

  /** `removeRecursively` on one folder. */
  function Cleaned(fs: Files, root: Root, kept: set<string>): (r: Files)
    ensures forall q :: At(r, q) == if q.root == root && q.rel !in kept then None else At(fs, q)
  {
    map q | q in fs && !(q.root == root && q.rel !in kept) :: fs[q]
  }

  function Put(fs: Files, q: Path, c: Option<Content>): (r: Files)
    ensures forall p :: At(r, p) == if p == q then c else At(fs, p)
  {
    if c.Some? then fs[q := c.value] else fs - {q}
  }

  datatype Downloads = Downloads(fs: Files, ok: bool, fetched: seq<nat>)

  function Staged(p: string): Path {
    Path(Update, p)
  }

  function Download(verify: Verifier, fs: Files, pending: seq<G.Entry>, world: World, i: nat): Downloads
    requires i <= |pending|
    decreases |pending| - i
  {
    if i == |pending| then Downloads(fs, true, [])
    else if Verified(verify, fs, Staged(pending[i].path), pending[i].sig) then
      Download(verify, fs, pending, world, i + 1)
    else if world.folderFails(i) then Downloads(fs, false, [])
    else
      var got := Put(fs, Staged(pending[i].path), world.fetch(i).left);
      if !world.fetch(i).ok || !Verified(verify, got, Staged(pending[i].path), pending[i].sig) then
        Downloads(got, false, [i])
      else
        Later([i], Download(verify, got, pending, world, i + 1))
  }

  /** The same outcome with some downloads made before. */
  function Later(before: seq<nat>, d: Downloads): Downloads {
    d.(fetched := before + d.fetched)
  }

  lemma LaterTwice(before: seq<nat>, i: nat, d: Downloads)
    ensures Later(before, Later([i], d)) == Later(before + [i], d)
  {
    assert before + ([i] + d.fetched) == before + [i] + d.fetched;
  }

  lemma LaterNothing(before: seq<nat>, fs: Files)
    ensures Later(before, Downloads(fs, false, [])) == Downloads(fs, false, before)
  {
    assert before + [] == before;
  }

  function PathsOf(pending: seq<G.Entry>): (r: seq<string>)
    ensures |r| == |pending|
  {
    seq(|pending|, i requires 0 <= i < |pending| => pending[i].path)
  }

  function Check(os: Platform, verify: Verifier, st: Installation, world: World): Report {
    if world.manifest.None? then Report(st, false, [])
    else
      match Judge(os, verify, st.fs, st.version, world.manifest.value)
      case Rejected => Report(st, false, [])
      case Accepted(version, pending) => Install(os, verify, st, version, pending, world)
  }

  /** From `initialCleanup` on: an accepted manifest asks for `version` and the `pending` entries. */
  function Install(
      os: Platform, verify: Verifier, st: Installation, version: int, pending: seq<G.Entry>, world: World): Report {
    var d := Download(verify, Cleaned(st.fs, Backup, world.backupKept), pending, world, 0);
    if !d.ok then Report(st.(fs := d.fs), false, d.fetched)
    else
      var p := Perform(PolicyOf(os), d.fs, PathsOf(pending), world.faults);
      if !p.1 then Report(st.(fs := p.0), false, d.fetched)
      else
        var clean := Cleaned(p.0, Update, world.updateKept);
        Report(Installation(clean, if world.versionWritable then version else st.version), true, d.fetched)
  }

  // ----- The task itself -----

  class UpdateTask {
    const os: Platform
    const verify: Verifier
    var fs: Files
    var version: int
    var updateVersion: int
    var currentFile: nat
    var hashed: string
    var downloadURLs: seq<string>
    var localPaths: seq<string>
    var fileSignatures: seq<string>

    constructor (os: Platform, verify: Verifier, fs: Files, version: int)
      ensures this.os == os && this.verify == verify && this.fs == fs && this.version == version
      ensures Holds([])
    {
      this.os, this.verify, this.fs, this.version := os, verify, fs, version;
      downloadURLs, localPaths, fileSignatures := [], [], [];
    }

    /** The three vectors list exactly these entries. */
    ghost predicate Holds(pending: seq<G.Entry>)
      reads this
    {
      && |downloadURLs| == |localPaths| == |fileSignatures| == |pending|
      && localPaths == PathsOf(pending)
      && forall i :: 0 <= i < |pending| ==> downloadURLs[i] == pending[i].url && fileSignatures[i] == pending[i].sig
    }

    method ProcessUpdateFile(text: string) returns (ok: bool)
      requires Holds([])
      modifies this`updateVersion, this`hashed, this`downloadURLs, this`localPaths, this`fileSignatures
      ensures var verdict := Judge(os, verify, fs, version, text);
              && ok == verdict.Accepted?
              && (ok ==> updateVersion == verdict.version && Holds(verdict.pending))
      ensures ok ==> BodyOf(text).Body? && hashed == HashedStream(text)
    {
      var line := Text.ReadNextLine(text);
      var versionLine, fd := line.0, line.1;
      if versionLine == [] || version == -1 {
        return false;
      }
      updateVersion := Decimal.Atoi(versionLine);
      if updateVersion <= version {
        return false;
      }
      line := Text.ReadNextLine(fd);
      var updateSignature := line.0;
      fd := line.1;
      if updateSignature == [] {
        return false;
      }
      assert ReadBody(fd) == BodyOf(text) && versionLine == VersionLine(text);
      ok := ReadEntries(versionLine, fd);
      if !ok || |downloadURLs| == 0 {
        return false;
      }
      ok := verify(hashed, updateSignature);
    }

    /** The reading loop: hashes every entry, keeps those not installed yet. */
    method ReadEntries(versionLine: string, text: string) returns (ok: bool)
      requires Holds([])
      modifies this`hashed, this`downloadURLs, this`localPaths, this`fileSignatures
      ensures ok <==> ReadBody(text).Body?
      ensures ok ==> Holds(Pending(os, verify, fs, ReadBody(text).entries))
      ensures ok ==> hashed == G.StreamOf(versionLine, ReadBody(text).entries)
    {
      var fd := text;
      hashed := versionLine;
      ghost var done: seq<G.Entry> := [];
      while true
        invariant ReadBody(text) == Prepend(done, ReadBody(fd))
        invariant hashed == G.StreamOf(versionLine, done)
        invariant Holds(Pending(os, verify, fs, done))
        decreases |fd|
      {
        match ReadEntry(fd) {
          case EndOfList =>
            assert done + [] == done;
            return true;
          case Spoiled =>
            return false;
          case Next(e, rest) =>
            hashed := hashed + G.EntryBytes(e);
            PrependTwice(done, [e], ReadBody(rest));
            G.StreamGrows(versionLine, done, e);
            PendingGrows(os, verify, fs, done, e);
            Keep(e, Pending(os, verify, fs, done));
            done := done + [e];
            fd := rest;
        }
      }
    }

    /** Appends an entry to the vectors unless the application folder already has it. */
    method Keep(e: G.Entry, ghost pending: seq<G.Entry>)
      requires Holds(pending)
      modifies this`downloadURLs, this`localPaths, this`fileSignatures
      ensures Holds(pending + if Installed(os, verify, fs, e) then [] else [e.(path := Target(os, e))])
    {
      var localPath := Native(os, e.path);
      if !Verified(verify, fs, Path(App, localPath), e.sig) {
        downloadURLs := downloadURLs + [e.url];
        localPaths := localPaths + [localPath];
        fileSignatures := fileSignatures + [e.sig];
      }
    }

    method Rename(src: Path, dst: Path, fault: bool) returns (err: Errno)
      requires src != dst
      modifies this`fs
      ensures (fs, err) == FileSystem.Rename(PolicyOf(os), old(fs), src, dst, fault)
    {
      var r := FileSystem.Rename(PolicyOf(os), fs, src, dst, fault);
      fs := r.0;
      err := r.1;
    }

    method InstallFile(i: nat, faults: Faults) returns (failure: Option<Step>, ghost passed: seq<Files>)
      requires i < |localPaths|
      modifies this`fs
      ensures Attempt(passed, fs, failure) == Installer.InstallFile(PolicyOf(os), old(fs), localPaths[i], i, faults)
    {
      if faults.backupFolder(i) {
        return Some(MakeBackupFolder), [];
      }
      var err := Rename(Path(App, localPaths[i]), Path(Backup, localPaths[i]), faults.moveOut(i));
      if err == OtherError {
        return Some(MoveOut), [];
      }
      passed := [old(fs)];
      if faults.targetFolder(i) {
        return Some(MakeTargetFolder), passed;
      }
      ghost var between := fs;
      err := Rename(Path(Update, localPaths[i]), Path(App, localPaths[i]), faults.moveIn(i));
      if err != Success {
        return Some(MoveIn), passed;
      }
      return None, [old(fs), between];
    }

    method PerformUpdate(faults: Faults) returns (ok: bool, ghost passed: seq<Files>)
      modifies this`fs
      ensures (fs, ok) == Perform(PolicyOf(os), old(fs), localPaths, faults)
      ensures passed == Forward(PolicyOf(os), old(fs), localPaths, faults, 0).states
    {
      ghost var fs0 := fs;
      passed := [];
      PrecedeNothing(Forward(PolicyOf(os), fs, localPaths, faults, 0));
      var i := 0;
      while i < |localPaths|
        invariant 0 <= i <= |localPaths|
        invariant Forward(PolicyOf(os), fs0, localPaths, faults, 0) ==
            Precede(passed, Forward(PolicyOf(os), fs, localPaths, faults, i))
      {
        ghost var before := passed;
        var failure;
        failure, passed := InstallFile(i, faults);
        if failure.Some? {
          PrecedeTwice(before, passed, Run([fs], Failed(i, failure.value)));
          passed := before + (passed + [fs]);
          RollbackUpdate(i, faults);
          return false, passed;
        }
        PrecedeTwice(before, passed, Forward(PolicyOf(os), fs, localPaths, faults, i + 1));
        passed := before + passed;
        i := i + 1;
      }
      return true, passed + [fs];
    }

    method RollbackUpdate(fileNum: nat, faults: Faults)
      requires fileNum < |localPaths|
      modifies this`fs
      ensures fs == Undo(PolicyOf(os), old(fs), localPaths, faults, fileNum + 1)
    {
      var i: int := fileNum;
      while i >= 0
        invariant -1 <= i <= fileNum
        invariant Undo(PolicyOf(os), old(fs), localPaths, faults, fileNum + 1) ==
            Undo(PolicyOf(os), fs, localPaths, faults, i + 1)
      {
        var err := Rename(Path(App, localPaths[i]), Path(Update, localPaths[i]), faults.undoOut(i));
        err := Rename(Path(Backup, localPaths[i]), Path(App, localPaths[i]), faults.undoIn(i));
        i := i - 1;
      }
    }

    /** The download loop over `currentFile`. */
    method FetchMissing(world: World, ghost pending: seq<G.Entry>) returns (ok: bool, fetched: seq<nat>)
      requires Holds(pending)
      modifies this`fs, this`currentFile
      ensures Downloads(fs, ok, fetched) == Download(verify, old(fs), pending, world, 0)
    {
      currentFile := 0;
      fetched := [];
      while currentFile < |downloadURLs|
        invariant 0 <= currentFile <= |pending|
        invariant Download(verify, old(fs), pending, world, 0) ==
                  Later(fetched, Download(verify, fs, pending, world, currentFile))
      {
        var localFile := Staged(localPaths[currentFile]);
        if !Verified(verify, fs, localFile, fileSignatures[currentFile]) {
          if world.folderFails(currentFile) {
            LaterNothing(fetched, fs);
            return false, fetched;
          }
          fs := Put(fs, localFile, world.fetch(currentFile).left);
          LaterTwice(fetched, currentFile, Download(verify, fs, pending, world, currentFile + 1));
          fetched := fetched + [currentFile];
          if !world.fetch(currentFile).ok || !Verified(verify, fs, localFile, fileSignatures[currentFile]) {
            return false, fetched;
          }
        }
        currentFile := currentFile + 1;
      }
      return true, fetched;
    }

    method CheckForUpdates(world: World) returns (finished: bool, fetched: seq<nat>)
      requires Holds([])
      modifies this
      ensures Report(Installation(fs, version), finished, fetched) ==
              Check(os, verify, Installation(old(fs), old(version)), world)
    {
      if world.manifest.None? {
        return false, [];
      }
      var ok := ProcessUpdateFile(world.manifest.value);
      if !ok {
        return false, [];
      }
      finished, fetched := InstallPending(world, Judge(os, verify, fs, version, world.manifest.value).pending);
    }

    method InstallPending(world: World, ghost pending: seq<G.Entry>) returns (finished: bool, fetched: seq<nat>)
      requires Holds(pending)
      modifies this`fs, this`version, this`currentFile
      ensures Report(Installation(fs, version), finished, fetched) ==
              Install(os, verify, Installation(old(fs), old(version)), updateVersion, pending, world)
    {
      fs := Cleaned(fs, Backup, world.backupKept);
      var ok: bool;
      ok, fetched := FetchMissing(world, pending);
      if !ok {
        return false, fetched;
      }
      ghost var passed;
      ok, passed := PerformUpdate(world.faults);
      if !ok {
        return false, fetched;
      }
      fs := Cleaned(fs, Update, world.updateKept);
      if world.versionWritable {
        version := updateVersion;
      }
      return true, fetched;
    }
  }
}
