/** `UpdateTask::performUpdate` and `UpdateTask::rollbackUpdate`: a multi-file transaction made of renames. */
module Installer {
  import opened Wrappers
  import opened FileSystem

  /** The four places where installing one file can fail. */
  datatype Step = MakeBackupFolder | MoveOut | MakeTargetFolder | MoveIn

  datatype Stop = Done | Failed(index: nat, step: Step)

  /** Which environment failures strike, by file index; each operation runs at most once per file. */
  datatype Faults = Faults(
    backupFolder: nat -> bool,
    moveOut: nat -> bool,
    targetFolder: nat -> bool,
    moveIn: nat -> bool,
    undoOut: nat -> bool,
    undoIn: nat -> bool)

  /** The file systems passed through, first to last, and how the loop ended. */
  datatype Run = Run(states: seq<Files>, stop: Stop)

  function Last(states: seq<Files>): Files
    requires states != []
  {
    states[|states| - 1]
  }

  /** One round of the loop: what it passed through, where it stands, and the step that failed, if any. */
  datatype Attempt = Attempt(passed: seq<Files>, now: Files, failure: Option<Step>)

  function InstallFile(policy: Policy, fs: Files, p: string, i: nat, faults: Faults): Attempt {
    if faults.backupFolder(i) then Attempt([], fs, Some(MakeBackupFolder))
    else
      var out := Rename(policy, fs, Path(App, p), Path(Backup, p), faults.moveOut(i));
      if out.1 == OtherError then Attempt([], fs, Some(MoveOut))
      else if faults.targetFolder(i) then Attempt([fs], out.0, Some(MakeTargetFolder))
      else
        var in_ := Rename(policy, out.0, Path(Update, p), Path(App, p), faults.moveIn(i));
        if in_.1 != Success then Attempt([fs], out.0, Some(MoveIn))
        else Attempt([fs, out.0], in_.0, None)
  }

  function Forward(policy: Policy, fs: Files, paths: seq<string>, faults: Faults, i: nat): (r: Run)
    requires i <= |paths|
    ensures r.states != [] && r.states[0] == fs
    ensures r.stop.Failed? ==> i <= r.stop.index < |paths|
    decreases |paths| - i
  {
    if i == |paths| then Run([fs], Done)
    else
      var attempt := InstallFile(policy, fs, paths[i], i, faults);
      match attempt.failure
      case Some(step) => Precede(attempt.passed, Run([attempt.now], Failed(i, step)))
      case None => Precede(attempt.passed, Forward(policy, attempt.now, paths, faults, i + 1))
  }

  /** A run that passes through `before` first. */
  function Precede(before: seq<Files>, run: Run): (r: Run)
    requires run.states != []
    ensures r.states != [] && Last(r.states) == Last(run.states)
  {
    Run(before + run.states, run.stop)
  }

  lemma PrecedeNothing(run: Run)
    requires run.states != []
    ensures Precede([], run) == run
  {
    assert [] + run.states == run.states;
  }

  lemma PrecedeTwice(a: seq<Files>, b: seq<Files>, run: Run)
    requires run.states != []
    ensures Precede(a, Precede(b, run)) == Precede(a + b, run)
  {
    assert a + (b + run.states) == a + b + run.states;
  }

  function UndoOne(policy: Policy, fs: Files, p: string, outFault: bool, inFault: bool): Files {
    var out := Rename(policy, fs, Path(App, p), Path(Update, p), outFault).0;
    Rename(policy, out, Path(Backup, p), Path(App, p), inFault).0
  }

  /** Undoes files `n - 1` down to `0`. */
  function Undo(policy: Policy, fs: Files, paths: seq<string>, faults: Faults, n: nat): Files
    requires n <= |paths|
    decreases n
  {
    if n == 0 then fs
    else Undo(policy, UndoOne(policy, fs, paths[n - 1], faults.undoOut(n - 1), faults.undoIn(n - 1)), paths, faults,
        n - 1)
  }

  /** The whole transaction: the loop, and the rollback that follows a failure. */
  function Perform(policy: Policy, fs: Files, paths: seq<string>, faults: Faults): (Files, bool) {
    var run := Forward(policy, fs, paths, faults, 0);
    match run.stop
    case Done => (Last(run.states), true)
    case Failed(i, _) => (Undo(policy, Last(run.states), paths, faults, i + 1), false)
  }

  ghost predicate Distinct(paths: seq<string>) {
    forall i, j :: 0 <= i < j < |paths| ==> paths[i] != paths[j]
  }

  // ----- What the loop has done, stated without following it -----

  /** What `q` holds once the first `k` files are swapped in and, if `half`, file `k` has been moved out. */
  function StageAt(fs: Files, paths: seq<string>, k: nat, half: bool, q: Path): Option<Content>
    requires k <= |paths| && (half ==> k < |paths|)
  {
    var swapped := q.rel in paths[..k];
    var movedOut := swapped || (half && q.rel == paths[k]);
    match q.root
    case App => if swapped then At(fs, Path(Update, q.rel)) else if movedOut then None else At(fs, q)
    case Update => if swapped then None else At(fs, q)
    case Backup => if movedOut && Path(App, q.rel) in fs then At(fs, Path(App, q.rel)) else At(fs, q)
  }

  ghost predicate IsStage(fs0: Files, fs: Files, paths: seq<string>, k: nat, half: bool) {
    && k <= |paths| && (half ==> k < |paths|)
    && forall q :: At(fs, q) == StageAt(fs0, paths, k, half, q)
  }

  ghost predicate SomeStage(fs0: Files, fs: Files, paths: seq<string>) {
    exists k: nat, half: bool :: IsStage(fs0, fs, paths, k, half)
  }

  lemma MoveOutStage(policy: Policy, fs0: Files, fs: Files, paths: seq<string>, i: nat, fault: bool)
    requires i < |paths| && IsStage(fs0, fs, paths, i, false) && paths[i] !in paths[..i]
    ensures var r := Rename(policy, fs, Path(App, paths[i]), Path(Backup, paths[i]), fault);
            r.1 != OtherError ==> IsStage(fs0, r.0, paths, i, true)
  {
    var p := paths[i];
    var r := Rename(policy, fs, Path(App, p), Path(Backup, p), fault);
    if r.1 != OtherError {
      assert At(fs, Path(App, p)) == At(fs0, Path(App, p));
      forall q ensures At(r.0, q) == StageAt(fs0, paths, i, true, q) {
        assert At(fs, q) == StageAt(fs0, paths, i, false, q);
      }
    }
  }

  lemma MoveInStage(policy: Policy, fs0: Files, fs: Files, paths: seq<string>, i: nat, fault: bool)
    requires i < |paths| && IsStage(fs0, fs, paths, i, true) && paths[i] !in paths[..i]
    ensures var r := Rename(policy, fs, Path(Update, paths[i]), Path(App, paths[i]), fault);
            && (r.1 == Success <==> Path(Update, paths[i]) in fs0 && !fault)
            && (r.1 == Success ==> IsStage(fs0, r.0, paths, i + 1, false))
  {
    var p := paths[i];
    var r := Rename(policy, fs, Path(Update, p), Path(App, p), fault);
    assert At(fs, Path(App, p)) == None;
    assert At(fs, Path(Update, p)) == At(fs0, Path(Update, p));
    if r.1 == Success {
      assert paths[..i + 1] == paths[..i] + [p];
      forall q ensures At(r.0, q) == StageAt(fs0, paths, i + 1, false, q) {
        assert At(fs, q) == StageAt(fs0, paths, i, true, q);
      }
    }
  }

  /** A path that was swapped in already cannot be swapped in twice: its update file is gone. */
  lemma RepeatFails(policy: Policy, fs0: Files, fs: Files, paths: seq<string>, faults: Faults, i: nat)
    requires i < |paths| && IsStage(fs0, fs, paths, i, false) && paths[i] in paths[..i]
    ensures Forward(policy, fs, paths, faults, i).stop.Failed?
  {
    assert At(fs, Path(Update, paths[i])) == None;
    var out := Rename(policy, fs, Path(App, paths[i]), Path(Backup, paths[i]), faults.moveOut(i));
    assert out.1 == Success ==> At(out.0, Path(Update, paths[i])) == At(fs, Path(Update, paths[i]));
  }

  lemma ExtendDistinct(paths: seq<string>, i: nat)
    requires i < |paths| && Distinct(paths[..i]) && paths[i] !in paths[..i]
    ensures Distinct(paths[..i + 1])
  {
    assert paths[..i + 1] == paths[..i] + [paths[i]];
  }

  ghost predicate EndsAsExpected(fs0: Files, run: Run, paths: seq<string>)
    requires run.states != []
  {
    match run.stop
    case Done => IsStage(fs0, Last(run.states), paths, |paths|, false)
    case Failed(j, step) => j < |paths| && IsStage(fs0, Last(run.states), paths, j, step in {MakeTargetFolder, MoveIn})
  }

  lemma FileStages(policy: Policy, fs0: Files, fs: Files, paths: seq<string>, faults: Faults, i: nat)
    requires i < |paths| && IsStage(fs0, fs, paths, i, false) && paths[i] !in paths[..i]
    ensures var a := InstallFile(policy, fs, paths[i], i, faults);
            && (forall s :: s in a.passed ==> SomeStage(fs0, s, paths))
            && match a.failure
               case None => IsStage(fs0, a.now, paths, i + 1, false)
               case Some(step) => IsStage(fs0, a.now, paths, i, step in {MakeTargetFolder, MoveIn})
  {
    assert SomeStage(fs0, fs, paths);
    MoveOutStage(policy, fs0, fs, paths, i, faults.moveOut(i));
    var out := Rename(policy, fs, Path(App, paths[i]), Path(Backup, paths[i]), faults.moveOut(i));
    if out.1 != OtherError {
      assert SomeStage(fs0, out.0, paths);
      MoveInStage(policy, fs0, out.0, paths, i, faults.moveIn(i));
    }
  }

  /** Where the loop ends. */
  lemma {:induction false} ForwardEnds(
      policy: Policy, fs0: Files, fs: Files, paths: seq<string>, faults: Faults, i: nat)
    requires Distinct(paths) && IsStage(fs0, fs, paths, i, false)
    ensures EndsAsExpected(fs0, Forward(policy, fs, paths, faults, i), paths)
    decreases |paths| - i
  {
    if i < |paths| {
      assert paths[i] !in paths[..i];
      FileStages(policy, fs0, fs, paths, faults, i);
      var a := InstallFile(policy, fs, paths[i], i, faults);
      if a.failure.None? {
        ForwardEnds(policy, fs0, a.now, paths, faults, i + 1);
      }
    }
  }

  /** And what it passes through. */
  lemma {:induction false} ForwardStages(
      policy: Policy, fs0: Files, fs: Files, paths: seq<string>, faults: Faults, i: nat)
    requires Distinct(paths) && IsStage(fs0, fs, paths, i, false)
    ensures forall s :: s in Forward(policy, fs, paths, faults, i).states ==> SomeStage(fs0, s, paths)
    decreases |paths| - i
  {
    if i == |paths| {
      assert SomeStage(fs0, fs, paths);
    } else {
      assert paths[i] !in paths[..i];
      FileStages(policy, fs0, fs, paths, faults, i);
      var a := InstallFile(policy, fs, paths[i], i, faults);
      match a.failure
      case Some(step) =>
        assert SomeStage(fs0, a.now, paths);
      case None =>
        ForwardStages(policy, fs0, a.now, paths, faults, i + 1);
    }
  }

  lemma {:induction false} DoneMeansDistinctFrom(
      policy: Policy, fs0: Files, fs: Files, paths: seq<string>, faults: Faults, i: nat)
    requires IsStage(fs0, fs, paths, i, false) && Distinct(paths[..i])
    requires Forward(policy, fs, paths, faults, i).stop == Done
    ensures Distinct(paths)
    decreases |paths| - i
  {
    if i == |paths| {
      assert paths[..i] == paths;
    } else {
      if paths[i] in paths[..i] {
        RepeatFails(policy, fs0, fs, paths, faults, i);
      }
      MoveOutStage(policy, fs0, fs, paths, i, faults.moveOut(i));
      var out := Rename(policy, fs, Path(App, paths[i]), Path(Backup, paths[i]), faults.moveOut(i));
      MoveInStage(policy, fs0, out.0, paths, i, faults.moveIn(i));
      ExtendDistinct(paths, i);
      DoneMeansDistinctFrom(policy, fs0,
        Rename(policy, out.0, Path(Update, paths[i]), Path(App, paths[i]), faults.moveIn(i)).0, paths, faults, i + 1);
    }
  }

  lemma StartsAtStageZero(fs: Files, paths: seq<string>)
    ensures IsStage(fs, fs, paths, 0, false)
  {}

  /** A successful update named every path once and put exactly the staged files in place. */
  lemma SuccessInstallsEverything(policy: Policy, fs: Files, paths: seq<string>, faults: Faults)
    requires Perform(policy, fs, paths, faults).1
    ensures Distinct(paths)
    ensures forall q :: At(Perform(policy, fs, paths, faults).0, q) ==
                        StageAt(fs, paths, |paths|, false, q)
  {
    StartsAtStageZero(fs, paths);
    DoneMeansDistinctFrom(policy, fs, fs, paths, faults, 0);
    ForwardEnds(policy, fs, fs, paths, faults, 0);
  }

  ghost predicate QuietLoop(faults: Faults) {
    forall n: nat :: !faults.backupFolder(n) && !faults.moveOut(n) && !faults.targetFolder(n) && !faults.moveIn(n)
  }

  /** Without environment failures the loop succeeds: nothing it does itself can make it stop. */
  lemma {:induction false} NothingElseFails(
      policy: Policy, fs0: Files, fs: Files, paths: seq<string>, faults: Faults, i: nat)
    requires Distinct(paths) && IsStage(fs0, fs, paths, i, false)
    requires forall p :: p in paths ==> Path(Update, p) in fs0 && Path(Backup, p) !in fs0
    requires QuietLoop(faults)
    ensures Forward(policy, fs, paths, faults, i).stop == Done
    decreases |paths| - i
  {
    if i < |paths| {
      var p := paths[i];
      assert At(fs, Path(Backup, p)) == None;
      MoveOutStage(policy, fs0, fs, paths, i, faults.moveOut(i));
      var out := Rename(policy, fs, Path(App, p), Path(Backup, p), faults.moveOut(i));
      assert p in paths && Path(Update, p) in fs0;
      MoveInStage(policy, fs0, out.0, paths, i, faults.moveIn(i));
      NothingElseFails(policy, fs0, Rename(policy, out.0, Path(Update, p), Path(App, p), faults.moveIn(i)).0, paths,
          faults, i + 1);
    }
  }

  // ----- A target listed twice -----

  /** The first `i` targets are distinct and staged: what the loop has established when it reaches `i`. */
  ghost predicate Reached(fs0: Files, paths: seq<string>, i: nat) {
    && i <= |paths| && Distinct(paths[..i])
    && forall k :: 0 <= k < i ==> Path(Update, paths[k]) in fs0
  }

  /** File `j` repeats an earlier target; if `moved`, its new content sits in the backup and nowhere else. */
  ghost predicate IsRepeat(fs0: Files, fs: Files, paths: seq<string>, j: nat, moved: bool) {
    && j < |paths| && paths[j] in paths[..j]
    && forall q :: At(fs, q) ==
         if !moved || q.rel != paths[j] then StageAt(fs0, paths, j, false, q)
         else if q.root == Backup then At(fs0, Path(Update, q.rel))
         else None
  }

  predicate Late(step: Step) {
    step in {MakeTargetFolder, MoveIn}
  }

  /** The round of a repeated target always fails. A move-out takes the new content over the backup. */
  lemma RepeatedFile(policy: Policy, fs0: Files, fs: Files, paths: seq<string>, faults: Faults, i: nat)
    requires i < |paths| && IsStage(fs0, fs, paths, i, false) && Reached(fs0, paths, i) && paths[i] in paths[..i]
    ensures var a := InstallFile(policy, fs, paths[i], i, faults);
            && a.failure.Some? && (forall s :: s in a.passed ==> s == fs)
            && IsRepeat(fs0, a.now, paths, i, Late(a.failure.value))
            && (Late(a.failure.value) && policy == Refuse ==> Path(App, paths[i]) !in fs0)
            && (!faults.backupFolder(i) && !faults.moveOut(i) && !faults.targetFolder(i) && policy == Replace ==>
                  a.failure == Some(MoveIn))
  {
    var p := paths[i];
    var k :| 0 <= k < i && paths[k] == p;
    assert At(fs, Path(App, p)) == At(fs0, Path(Update, p)) && At(fs, Path(Update, p)) == None;
    assert Path(App, p) in fs0 ==> At(fs, Path(Backup, p)) == At(fs0, Path(App, p));
    var out := Rename(policy, fs, Path(App, p), Path(Backup, p), faults.moveOut(i));
    assert out.1 == Success ==> At(out.0, Path(Update, p)) == None;
    assert forall q :: At(fs, q) == StageAt(fs0, paths, i, false, q);
  }

  lemma ReachOneMore(fs0: Files, paths: seq<string>, i: nat)
    requires i < |paths| && Reached(fs0, paths, i) && paths[i] !in paths[..i] && Path(Update, paths[i]) in fs0
    ensures Reached(fs0, paths, i + 1)
  {
    ExtendDistinct(paths, i);
  }

  /** A round that succeeds had a new target and its staged file. */
  lemma SuccessReaches(policy: Policy, fs0: Files, fs: Files, paths: seq<string>, faults: Faults, i: nat)
    requires i < |paths| && IsStage(fs0, fs, paths, i, false) && Reached(fs0, paths, i)
    requires InstallFile(policy, fs, paths[i], i, faults).failure.None?
    ensures paths[i] !in paths[..i] && Reached(fs0, paths, i + 1)
    ensures IsStage(fs0, InstallFile(policy, fs, paths[i], i, faults).now, paths, i + 1, false)
  {
    if paths[i] in paths[..i] {
      RepeatedFile(policy, fs0, fs, paths, faults, i);
      assert false;
    } else {
      FileStages(policy, fs0, fs, paths, faults, i);
      MoveOutStage(policy, fs0, fs, paths, i, faults.moveOut(i));
      var out := Rename(policy, fs, Path(App, paths[i]), Path(Backup, paths[i]), faults.moveOut(i));
      MoveInStage(policy, fs0, out.0, paths, i, faults.moveIn(i));
      ReachOneMore(fs0, paths, i);
    }
  }

  /** Where the loop stops, for any list: at a new target as before, or at the first repeated one. */
  ghost predicate StopsAsExpected(policy: Policy, fs0: Files, run: Run, paths: seq<string>)
    requires run.states != []
  {
    match run.stop
    case Done => IsStage(fs0, Last(run.states), paths, |paths|, false)
    case Failed(j, step) =>
      && j < |paths| && Reached(fs0, paths, j)
      && if paths[j] !in paths[..j] then IsStage(fs0, Last(run.states), paths, j, Late(step))
         else
           && IsRepeat(fs0, Last(run.states), paths, j, Late(step))
           && (Late(step) && policy == Refuse ==> Path(App, paths[j]) !in fs0)
  }

  lemma {:induction false} ForwardStops(
      policy: Policy, fs0: Files, fs: Files, paths: seq<string>, faults: Faults, i: nat)
    requires IsStage(fs0, fs, paths, i, false) && Reached(fs0, paths, i)
    ensures StopsAsExpected(policy, fs0, Forward(policy, fs, paths, faults, i), paths)
    decreases |paths| - i
  {
    if i < |paths| {
      var a := InstallFile(policy, fs, paths[i], i, faults);
      if a.failure.None? {
        SuccessReaches(policy, fs0, fs, paths, faults, i);
        ForwardStops(policy, fs0, a.now, paths, faults, i + 1);
      } else if paths[i] in paths[..i] {
        RepeatedFile(policy, fs0, fs, paths, faults, i);
      } else {
        FileStages(policy, fs0, fs, paths, faults, i);
      }
    }
  }

  // ----- Exactly when the loop stops -----

  /** The step at which file `i` fails, if any, told from the files at the start: a repeated target is there to be
      moved out again and is not staged any more. */
  function FailingStep(policy: Policy, fs: Files, paths: seq<string>, faults: Faults, i: nat): Option<Step>
    requires i < |paths|
  {
    var p := paths[i];
    var again := p in paths[..i];
    var there := again || Path(App, p) in fs;
    var taken := Path(Backup, p) in fs || (again && Path(App, p) in fs);
    if faults.backupFolder(i) then Some(MakeBackupFolder)
    else if there && (faults.moveOut(i) || (policy == Refuse && taken)) then Some(MoveOut)
    else if faults.targetFolder(i) then Some(MakeTargetFolder)
    else if faults.moveIn(i) || again || Path(Update, p) !in fs then Some(MoveIn)
    else None
  }

  lemma RoundFails(policy: Policy, fs0: Files, fs: Files, paths: seq<string>, faults: Faults, i: nat)
    requires i < |paths| && IsStage(fs0, fs, paths, i, false) && Reached(fs0, paths, i)
    ensures InstallFile(policy, fs, paths[i], i, faults).failure == FailingStep(policy, fs0, paths, faults, i)
  {
    var p := paths[i];
    if p in paths[..i] {
      var k :| 0 <= k < i && paths[k] == p;
      assert Path(Update, p) in fs0;
    }
    assert At(fs, Path(App, p)) == StageAt(fs0, paths, i, false, Path(App, p));
    assert At(fs, Path(Update, p)) == StageAt(fs0, paths, i, false, Path(Update, p));
    assert At(fs, Path(Backup, p)) == StageAt(fs0, paths, i, false, Path(Backup, p));
    var out := Rename(policy, fs, Path(App, p), Path(Backup, p), faults.moveOut(i));
    if out.1 != OtherError {
      assert At(out.0, Path(App, p)) == None;
      assert At(out.0, Path(Update, p)) == At(fs, Path(Update, p));
    }
  }

  /** No file from `i` to `j` fails. */
  ghost predicate Passes(policy: Policy, fs: Files, paths: seq<string>, faults: Faults, i: nat, j: nat)
    requires j <= |paths|
  {
    forall k :: i <= k < j ==> FailingStep(policy, fs, paths, faults, k) == None
  }

  lemma {:induction false} StopsFirst(
      policy: Policy, fs0: Files, fs: Files, paths: seq<string>, faults: Faults, i: nat)
    requires IsStage(fs0, fs, paths, i, false) && Reached(fs0, paths, i)
    ensures match Forward(policy, fs, paths, faults, i).stop
            case Done => Passes(policy, fs0, paths, faults, i, |paths|)
            case Failed(j, step) =>
              && i <= j < |paths| && Passes(policy, fs0, paths, faults, i, j)
              && FailingStep(policy, fs0, paths, faults, j) == Some(step)
    decreases |paths| - i
  {
    if i < |paths| {
      RoundFails(policy, fs0, fs, paths, faults, i);
      var a := InstallFile(policy, fs, paths[i], i, faults);
      if a.failure.None? {
        SuccessReaches(policy, fs0, fs, paths, faults, i);
        StopsFirst(policy, fs0, a.now, paths, faults, i + 1);
      }
    }
  }

  /** The loop stops at the first file that fails, at the first step at which it fails, and at nothing else. */
  lemma StopsExactly(policy: Policy, fs: Files, paths: seq<string>, faults: Faults)
    ensures var stop := Forward(policy, fs, paths, faults, 0).stop;
            && (stop == Done <==> Passes(policy, fs, paths, faults, 0, |paths|))
            && forall j: nat, step ::
                 stop == Failed(j, step) <==>
                 && j < |paths| && Passes(policy, fs, paths, faults, 0, j)
                 && FailingStep(policy, fs, paths, faults, j) == Some(step)
  {
    StartsAtStageZero(fs, paths);
    StopsFirst(policy, fs, fs, paths, faults, 0);
    var stop := Forward(policy, fs, paths, faults, 0).stop;
    forall j: nat, step | j < |paths| && Passes(policy, fs, paths, faults, 0, j)
                          && FailingStep(policy, fs, paths, faults, j) == Some(step)
      ensures stop == Failed(j, step)
    {}
  }

  /** What file `i` needs: its folders, its staged file, its move in, and, if it is installed, its move out. */
  ghost predicate Installs(policy: Policy, fs: Files, p: string, faults: Faults, i: nat) {
    && !faults.backupFolder(i) && !faults.targetFolder(i) && !faults.moveIn(i)
    && Path(Update, p) in fs
    && (Path(App, p) in fs ==> !faults.moveOut(i) && (policy == Refuse ==> Path(Backup, p) !in fs))
  }

  /** The update succeeds exactly when the targets are distinct and each of them has what it needs. */
  lemma SucceedsExactly(policy: Policy, fs: Files, paths: seq<string>, faults: Faults)
    ensures Perform(policy, fs, paths, faults).1 <==>
            Distinct(paths) && forall i :: 0 <= i < |paths| ==> Installs(policy, fs, paths[i], faults, i)
  {
    StopsExactly(policy, fs, paths, faults);
    if Passes(policy, fs, paths, faults, 0, |paths|) {
      forall i, j | 0 <= i < j < |paths| ensures paths[i] != paths[j] {
        assert FailingStep(policy, fs, paths, faults, j) == None;
        assert paths[..j][i] == paths[i];
      }
      forall i | 0 <= i < |paths| ensures Installs(policy, fs, paths[i], faults, i) {
        assert FailingStep(policy, fs, paths, faults, i) == None;
      }
    }
    if Distinct(paths) && forall i :: 0 <= i < |paths| ==> Installs(policy, fs, paths[i], faults, i) {
      forall i | 0 <= i < |paths| ensures FailingStep(policy, fs, paths, faults, i) == None {
        assert Installs(policy, fs, paths[i], faults, i);
        assert paths[i] !in paths[..i];
      }
    }
  }

  // ----- Nothing is skipped between two states -----

  /** `b` is `a` after one rename, successful or not, of a file out to the backup or in from the update. */
  ghost predicate OneRename(policy: Policy, a: Files, b: Files, paths: seq<string>) {
    exists p, fault :: p in paths
      && (|| b == Rename(policy, a, Path(App, p), Path(Backup, p), fault).0
          || b == Rename(policy, a, Path(Update, p), Path(App, p), fault).0)
  }

  ghost predicate RenameByRename(policy: Policy, states: seq<Files>, paths: seq<string>) {
    forall n :: 0 <= n < |states| - 1 ==> OneRename(policy, states[n], states[n + 1], paths)
  }

  lemma JoinRenames(policy: Policy, a: seq<Files>, b: seq<Files>, paths: seq<string>)
    requires RenameByRename(policy, a, paths) && RenameByRename(policy, b, paths) && b != []
    requires a != [] ==> OneRename(policy, a[|a| - 1], b[0], paths)
    ensures RenameByRename(policy, a + b, paths)
  {
    forall n | 0 <= n < |a + b| - 1 ensures OneRename(policy, (a + b)[n], (a + b)[n + 1], paths) {
      if n < |a| - 1 {
        assert OneRename(policy, a[n], a[n + 1], paths);
      } else if n >= |a| {
        assert OneRename(policy, b[n - |a|], b[n - |a| + 1], paths);
      }
    }
  }

  /** The states the loop passes through are one rename apart, so no point where the process could die is left out. */
  lemma {:induction false} StatesAreOneRenameApart(
      policy: Policy, fs: Files, paths: seq<string>, faults: Faults, i: nat)
    requires i <= |paths|
    ensures RenameByRename(policy, Forward(policy, fs, paths, faults, i).states, paths)
    decreases |paths| - i
  {
    if i < |paths| {
      var p, a := paths[i], InstallFile(policy, fs, paths[i], i, faults);
      var out := Rename(policy, fs, Path(App, p), Path(Backup, p), faults.moveOut(i));
      var in_ := Rename(policy, out.0, Path(Update, p), Path(App, p), faults.moveIn(i));
      assert p in paths;
      assert OneRename(policy, fs, out.0, paths) && OneRename(policy, out.0, in_.0, paths);
      if a.failure.None? {
        StatesAreOneRenameApart(policy, a.now, paths, faults, i + 1);
        JoinRenames(policy, a.passed, Forward(policy, a.now, paths, faults, i + 1).states, paths);
      } else {
        JoinRenames(policy, a.passed, [a.now], paths);
      }
    }
  }

  // ----- No original is lost -----

  /** Every application file keeps its content, at its own path or, if it is being updated, in the backup. */
  ghost predicate OriginalsKept(fs0: Files, fs: Files, paths: seq<string>) {
    forall r :: Path(App, r) in fs0 ==>
      || At(fs, Path(App, r)) == At(fs0, Path(App, r))
      || (r in paths && At(fs, Path(Backup, r)) == At(fs0, Path(App, r)))
  }

  lemma StageKeepsOriginals(fs0: Files, fs: Files, paths: seq<string>)
    requires SomeStage(fs0, fs, paths)
    ensures OriginalsKept(fs0, fs, paths)
    ensures forall r :: r !in paths ==> At(fs, Path(App, r)) == At(fs0, Path(App, r))
  {
    var k: nat, half: bool :| IsStage(fs0, fs, paths, k, half);
    forall r | Path(App, r) in fs0
      ensures || At(fs, Path(App, r)) == At(fs0, Path(App, r))
              || (r in paths && At(fs, Path(Backup, r)) == At(fs0, Path(App, r)))
    {
      assert At(fs, Path(App, r)) == StageAt(fs0, paths, k, half, Path(App, r));
      assert At(fs, Path(Backup, r)) == StageAt(fs0, paths, k, half, Path(Backup, r));
    }
    forall r | r !in paths ensures At(fs, Path(App, r)) == At(fs0, Path(App, r)) {
      assert At(fs, Path(App, r)) == StageAt(fs0, paths, k, half, Path(App, r));
    }
  }

  /** An installed target, staged with another content, is listed again at `j`, and nothing before `j` makes
      the loop stop by itself. */
  ghost predicate Overwrites(fs: Files, paths: seq<string>, j: nat) {
    && j < |paths| && Reached(fs, paths, j) && paths[j] in paths[..j]
    && Path(App, paths[j]) in fs && At(fs, Path(App, paths[j])) != At(fs, Path(Update, paths[j]))
  }

  lemma RepeatKeepsOriginals(fs0: Files, fs: Files, paths: seq<string>, j: nat, moved: bool)
    requires IsRepeat(fs0, fs, paths, j, moved) && Reached(fs0, paths, j)
    ensures moved && Overwrites(fs0, paths, j) ==> !OriginalsKept(fs0, fs, paths)
    ensures !moved || !Overwrites(fs0, paths, j) ==> OriginalsKept(fs0, fs, paths)
  {
    var p := paths[j];
    var k :| 0 <= k < j && paths[k] == p;
    assert At(fs, Path(App, p)) == if moved then None else At(fs0, Path(Update, p));
    assert p in paths;
    if !moved || !Overwrites(fs0, paths, j) {
      forall r | Path(App, r) in fs0
        ensures || At(fs, Path(App, r)) == At(fs0, Path(App, r))
                || (r in paths && At(fs, Path(Backup, r)) == At(fs0, Path(App, r)))
      {
        assert r in paths[..j] ==> r in paths;
        assert At(fs, Path(Backup, r)) ==
          if moved && r == p then At(fs0, Path(Update, r)) else StageAt(fs0, paths, j, false, Path(Backup, r));
        assert r != p || !moved ==> At(fs, Path(App, r)) == StageAt(fs0, paths, j, false, Path(App, r));
      }
    } else {
      assert At(fs, Path(Backup, p)) == At(fs0, Path(Update, p));
    }
  }

  ghost predicate AllKept(fs0: Files, states: seq<Files>, paths: seq<string>) {
    forall s :: s in states ==> OriginalsKept(fs0, s, paths)
  }

  lemma StageIsKept(fs0: Files, fs: Files, paths: seq<string>, k: nat, half: bool)
    requires IsStage(fs0, fs, paths, k, half)
    ensures OriginalsKept(fs0, fs, paths)
  {
    assert SomeStage(fs0, fs, paths);
    StageKeepsOriginals(fs0, fs, paths);
  }

  lemma RoundKeepsOriginals(policy: Policy, fs0: Files, fs: Files, paths: seq<string>, faults: Faults, i: nat)
    requires i < |paths| && IsStage(fs0, fs, paths, i, false) && Reached(fs0, paths, i)
    requires policy == Refuse || !Overwrites(fs0, paths, i)
    ensures var a := InstallFile(policy, fs, paths[i], i, faults);
            AllKept(fs0, a.passed, paths) && OriginalsKept(fs0, a.now, paths)
  {
    var a := InstallFile(policy, fs, paths[i], i, faults);
    StageIsKept(fs0, fs, paths, i, false);
    if paths[i] in paths[..i] {
      RepeatedFile(policy, fs0, fs, paths, faults, i);
      RepeatKeepsOriginals(fs0, a.now, paths, i, Late(a.failure.value));
    } else {
      FileStages(policy, fs0, fs, paths, faults, i);
      forall s | s in a.passed ensures OriginalsKept(fs0, s, paths) {
        StageKeepsOriginals(fs0, s, paths);
      }
      match a.failure
      case None => StageIsKept(fs0, a.now, paths, i + 1, false);
      case Some(step) => StageIsKept(fs0, a.now, paths, i, step in {MakeTargetFolder, MoveIn});
    }
  }

  lemma {:induction false} LoopKeepsOriginals(
      policy: Policy, fs0: Files, fs: Files, paths: seq<string>, faults: Faults, i: nat)
    requires IsStage(fs0, fs, paths, i, false) && Reached(fs0, paths, i)
    requires policy == Refuse || forall j: nat :: !Overwrites(fs0, paths, j)
    ensures AllKept(fs0, Forward(policy, fs, paths, faults, i).states, paths)
    decreases |paths| - i
  {
    if i == |paths| {
      StageIsKept(fs0, fs, paths, i, false);
    } else {
      RoundKeepsOriginals(policy, fs0, fs, paths, faults, i);
      var a := InstallFile(policy, fs, paths[i], i, faults);
      if a.failure.None? {
        SuccessReaches(policy, fs0, fs, paths, faults, i);
        LoopKeepsOriginals(policy, fs0, a.now, paths, faults, i + 1);
      }
    }
  }

  lemma {:induction false} LoopLeavesOthers(
      policy: Policy, fs: Files, paths: seq<string>, faults: Faults, i: nat, q: Path)
    requires i <= |paths| && q.rel !in paths
    ensures forall s :: s in Forward(policy, fs, paths, faults, i).states ==> At(s, q) == At(fs, q)
    decreases |paths| - i
  {
    if i < |paths| {
      var a := InstallFile(policy, fs, paths[i], i, faults);
      assert paths[i] in paths;
      assert At(a.now, q) == At(fs, q) && forall s :: s in a.passed ==> At(s, q) == At(fs, q);
      if a.failure.None? {
        LoopLeavesOthers(policy, a.now, paths, faults, i + 1, q);
      }
    }
  }

  /** In every file system the loop passes through, so at every point where the process could die. */
  lemma NoOriginalIsLost(policy: Policy, fs: Files, paths: seq<string>, faults: Faults)
    ensures policy == Refuse || (forall j: nat :: !Overwrites(fs, paths, j)) ==>
              AllKept(fs, Forward(policy, fs, paths, faults, 0).states, paths)
    ensures forall s, q: Path :: s in Forward(policy, fs, paths, faults, 0).states && q.rel !in paths ==>
              At(s, q) == At(fs, q)
  {
    StartsAtStageZero(fs, paths);
    if policy == Refuse || forall j: nat :: !Overwrites(fs, paths, j) {
      LoopKeepsOriginals(policy, fs, fs, paths, faults, 0);
    }
    forall s, q: Path | s in Forward(policy, fs, paths, faults, 0).states && q.rel !in paths
      ensures At(s, q) == At(fs, q)
    {
      LoopLeavesOthers(policy, fs, paths, faults, 0, q);
    }
  }

  /** Left alone, the loop runs into a repeated target and has by then written over its backup. */
  lemma {:induction false} RunsIntoRepeat(fs0: Files, fs: Files, paths: seq<string>, faults: Faults, i: nat, j: nat)
    requires QuietLoop(faults) && i <= j < |paths| && Reached(fs0, paths, j) && paths[j] in paths[..j]
    requires IsStage(fs0, fs, paths, i, false)
    ensures var run := Forward(Replace, fs, paths, faults, i);
            run.stop == Failed(j, MoveIn) && IsRepeat(fs0, Last(run.states), paths, j, true)
    decreases j - i
  {
    assert Distinct(paths[..i]) by {
      assert forall k :: 0 <= k < i ==> paths[..i][k] == paths[..j][k];
    }
    if i == j {
      RepeatedFile(Replace, fs0, fs, paths, faults, i);
    } else {
      assert paths[..j][i] == paths[i];
      assert paths[i] !in paths[..i] by {
        assert forall k :: 0 <= k < i ==> paths[..j][k] == paths[..i][k];
      }
      FileStages(Replace, fs0, fs, paths, faults, i);
      MoveOutStage(Replace, fs0, fs, paths, i, false);
      var out := Rename(Replace, fs, Path(App, paths[i]), Path(Backup, paths[i]), false);
      MoveInStage(Replace, fs0, out.0, paths, i, false);
      RunsIntoRepeat(fs0, InstallFile(Replace, fs, paths[i], i, faults).now, paths, faults, i + 1, j);
    }
  }

  /** With a replacing rename, originals are kept through every loop, whatever fails, exactly when no installed
      target staged with another content is listed again. */
  lemma ReplacingKeepsOriginalsExactly(fs: Files, paths: seq<string>)
    ensures (forall faults: Faults :: AllKept(fs, Forward(Replace, fs, paths, faults, 0).states, paths)) <==>
            forall j: nat :: !Overwrites(fs, paths, j)
  {
    if j: nat :| Overwrites(fs, paths, j) {
      var quiet := Faults(n => false, n => false, n => false, n => false, n => false, n => false);
      var states := Forward(Replace, fs, paths, quiet, 0).states;
      StartsAtStageZero(fs, paths);
      RunsIntoRepeat(fs, fs, paths, quiet, 0, j);
      RepeatKeepsOriginals(fs, Last(states), paths, j, true);
      assert Last(states) in states;
      assert !AllKept(fs, states, paths);
    } else {
      forall faults: Faults ensures AllKept(fs, Forward(Replace, fs, paths, faults, 0).states, paths) {
        NoOriginalIsLost(Replace, fs, paths, faults);
      }
    }
  }

  lemma {:induction false} GoneStaysGone(
      policy: Policy, fs: Files, paths: seq<string>, faults: Faults, n: nat, c: Content)
    requires n <= |paths| && c !in fs.Values
    ensures c !in Undo(policy, fs, paths, faults, n).Values
    decreases n
  {
    if n > 0 {
      GoneStaysGone(policy, UndoOne(policy, fs, paths[n - 1], faults.undoOut(n - 1), faults.undoIn(n - 1)),
        paths, faults, n - 1, c);
    }
  }

  lemma NoHolderLeft(fs0: Files, fs: Files, paths: seq<string>, j: nat, c: Content)
    requires Overwrites(fs0, paths, j) && IsRepeat(fs0, fs, paths, j, true)
    requires forall q :: q in fs0 && fs0[q] == c <==> q == Path(App, paths[j])
    ensures c !in fs.Values
  {
    var p := paths[j];
    forall q | q in fs ensures fs[q] != c {
      assert At(fs, q) == if q.rel != p then StageAt(fs0, paths, j, false, q)
                          else if q.root == Backup then At(fs0, Path(Update, p)) else None;
      assert At(fs0, q) != Some(c) || q == Path(App, p);
      assert At(fs0, Path(App, q.rel)) != Some(c) || q.rel == p;
      assert At(fs0, Path(Update, q.rel)) != Some(c);
    }
  }

  /** The failing family, followed to the end: the update fails, whatever the rollback then does, and a content
      that only the repeated target's original held is nowhere any more. */
  lemma RepeatDestroysOriginal(fs: Files, paths: seq<string>, faults: Faults, j: nat, c: Content)
    requires Overwrites(fs, paths, j) && QuietLoop(faults)
    requires forall q :: q in fs && fs[q] == c <==> q == Path(App, paths[j])
    ensures !Perform(Replace, fs, paths, faults).1 && c !in Perform(Replace, fs, paths, faults).0.Values
  {
    var last := Last(Forward(Replace, fs, paths, faults, 0).states);
    StartsAtStageZero(fs, paths);
    RunsIntoRepeat(fs, fs, paths, faults, 0, j);
    NoHolderLeft(fs, last, paths, j, c);
    GoneStaysGone(Replace, last, paths, faults, j + 1, c);
  }

  // ----- Conservation under a refusing rename -----

  lemma {:induction false} ForwardConserves(fs: Files, paths: seq<string>, faults: Faults, i: nat)
    requires i <= |paths|
    ensures forall s :: s in Forward(Refuse, fs, paths, faults, i).states ==> SameContents(fs, s)
    decreases |paths| - i
  {
    if i < |paths| {
      RefusingRenameConserves(fs, Path(App, paths[i]), Path(Backup, paths[i]), faults.moveOut(i));
      var out := Rename(Refuse, fs, Path(App, paths[i]), Path(Backup, paths[i]), faults.moveOut(i)).0;
      RefusingRenameConserves(out, Path(Update, paths[i]), Path(App, paths[i]), faults.moveIn(i));
      var in_ := Rename(Refuse, out, Path(Update, paths[i]), Path(App, paths[i]), faults.moveIn(i)).0;
      ForwardConserves(in_, paths, faults, i + 1);
    }
  }

  lemma {:induction false} UndoConserves(fs: Files, paths: seq<string>, faults: Faults, n: nat)
    requires n <= |paths|
    ensures SameContents(fs, Undo(Refuse, fs, paths, faults, n))
    decreases n
  {
    if n > 0 {
      var p := paths[n - 1];
      RefusingRenameConserves(fs, Path(App, p), Path(Update, p), faults.undoOut(n - 1));
      var out := Rename(Refuse, fs, Path(App, p), Path(Update, p), faults.undoOut(n - 1)).0;
      RefusingRenameConserves(out, Path(Backup, p), Path(App, p), faults.undoIn(n - 1));
      UndoConserves(UndoOne(Refuse, fs, p, faults.undoOut(n - 1), faults.undoIn(n - 1)), paths, faults, n - 1);
    }
  }

  /** Whatever fails, and whatever then fails during the rollback, no content is created or destroyed. */
  lemma RefusingUpdateConserves(fs: Files, paths: seq<string>, faults: Faults)
    ensures SameContents(fs, Perform(Refuse, fs, paths, faults).0)
    ensures forall s :: s in Forward(Refuse, fs, paths, faults, 0).states ==> SameContents(fs, s)
  {
    ForwardConserves(fs, paths, faults, 0);
    var run := Forward(Refuse, fs, paths, faults, 0);
    assert Last(run.states) in run.states;
    if run.stop.Failed? {
      UndoConserves(Last(run.states), paths, faults, run.stop.index + 1);
    }
  }

  // ----- Rollback -----

  /** What the updater arranges before installing: staged files present, their backup slots free. */
  ghost predicate Ready(fs: Files, paths: seq<string>) {
    forall p :: p in paths ==> Path(Update, p) in fs && Path(Backup, p) !in fs
  }

  ghost predicate QuietRollback(faults: Faults) {
    forall n: nat :: !faults.undoOut(n) && !faults.undoIn(n)
  }

  lemma UndoSwappedFile(policy: Policy, fs0: Files, fs: Files, paths: seq<string>, k: nat)
    requires Ready(fs0, paths) && 0 < k && IsStage(fs0, fs, paths, k, false) && Distinct(paths[..k])
    ensures IsStage(fs0, UndoOne(policy, fs, paths[k - 1], false, false), paths, k - 1, false)
  {
    var p := paths[k - 1];
    assert paths[..k] == paths[..k - 1] + [p];
    assert paths[..k][k - 1] == p;
    assert p !in paths[..k - 1] by {
      assert forall m :: 0 <= m < k - 1 ==> paths[..k - 1][m] == paths[..k][m];
    }
    assert p in paths;
    assert At(fs, Path(App, p)) == At(fs0, Path(Update, p)) && At(fs, Path(Update, p)) == None;
    assert At(fs, Path(Backup, p)) == At(fs0, Path(App, p));
    var out := Rename(policy, fs, Path(App, p), Path(Update, p), false).0;
    var back := UndoOne(policy, fs, p, false, false);
    assert At(out, Path(App, p)) == None && At(out, Path(Backup, p)) == At(fs0, Path(App, p));
    forall q ensures At(back, q) == StageAt(fs0, paths, k - 1, false, q) {
      assert At(fs, q) == StageAt(fs0, paths, k, false, q);
    }
  }

  lemma {:induction false} UndoReachesStart(
      policy: Policy, fs0: Files, fs: Files, paths: seq<string>, faults: Faults, k: nat)
    requires Ready(fs0, paths) && QuietRollback(faults) && IsStage(fs0, fs, paths, k, false) && Distinct(paths[..k])
    ensures Undo(policy, fs, paths, faults, k) == fs0
    decreases k
  {
    if k == 0 {
      SameEverywhere(fs, fs0);
    } else {
      UndoSwappedFile(policy, fs0, fs, paths, k);
      assert Distinct(paths[..k - 1]) by {
        assert forall m :: 0 <= m < k - 1 ==> paths[..k - 1][m] == paths[..k][m];
      }
      UndoReachesStart(policy, fs0, UndoOne(policy, fs, paths[k - 1], false, false), paths, faults, k - 1);
    }
  }

  /** Rolling back the file that failed, when it had been moved out or when nothing can overwrite its staged copy. */
  lemma UndoFailedFile(policy: Policy, fs0: Files, fs: Files, paths: seq<string>, i: nat, half: bool)
    requires Ready(fs0, paths) && i < |paths| && IsStage(fs0, fs, paths, i, half) && paths[i] !in paths[..i]
    requires half || policy == Refuse || Path(App, paths[i]) !in fs0
    ensures IsStage(fs0, UndoOne(policy, fs, paths[i], false, false), paths, i, false)
  {
    var p := paths[i];
    assert p in paths;
    assert At(fs, Path(App, p)) == if half then None else At(fs0, Path(App, p));
    assert At(fs, Path(Update, p)) == At(fs0, Path(Update, p));
    assert At(fs, Path(Backup, p)) == if half then At(fs0, Path(App, p)) else None;
    var out := Rename(policy, fs, Path(App, p), Path(Update, p), false).0;
    assert out == fs;
    var back := UndoOne(policy, fs, p, false, false);
    forall q ensures At(back, q) == StageAt(fs0, paths, i, false, q) {
      assert At(fs, q) == StageAt(fs0, paths, i, half, q);
    }
  }

  lemma {:induction false} UndoLeavesOthers(
      policy: Policy, fs: Files, paths: seq<string>, faults: Faults, n: nat, q: Path)
    requires n <= |paths| && q.rel !in paths[..n]
    ensures At(Undo(policy, fs, paths, faults, n), q) == At(fs, q)
    decreases n
  {
    if n > 0 {
      assert paths[..n] == paths[..n - 1] + [paths[n - 1]];
      assert paths[n - 1] in paths[..n];
      UndoLeavesOthers(policy, UndoOne(policy, fs, paths[n - 1], faults.undoOut(n - 1), faults.undoIn(n - 1)), paths,
          faults, n - 1, q);
    }
  }

  /** The failing family: a replacing rename, and a failure before the file was moved out. */
  lemma UndoTakesTheOriginalAway(fs0: Files, fs: Files, paths: seq<string>, faults: Faults, i: nat)
    requires Ready(fs0, paths) && QuietRollback(faults) && i < |paths| && IsStage(fs0, fs, paths, i, false)
    requires paths[i] !in paths[..i] && Path(App, paths[i]) in fs0
    ensures var back := Undo(Replace, fs, paths, faults, i + 1);
            && Path(App, paths[i]) !in back
            && At(back, Path(Update, paths[i])) == At(fs0, Path(App, paths[i]))
  {
    var p := paths[i];
    assert p in paths;
    assert At(fs, Path(App, p)) == At(fs0, Path(App, p));
    assert At(fs, Path(Backup, p)) == None;
    var one := UndoOne(Replace, fs, p, false, false);
    assert At(one, Path(App, p)) == None && At(one, Path(Update, p)) == At(fs0, Path(App, p));
    UndoLeavesOthers(Replace, one, paths, faults, i, Path(App, p));
    UndoLeavesOthers(Replace, one, paths, faults, i, Path(Update, p));
    assert At(Undo(Replace, fs, paths, faults, i + 1), Path(App, p)) == None;
  }

  /** Undoing one file looks only at that file. */
  lemma UndoIsLocal(policy: Policy, a: Files, b: Files, r: string, q: Path)
    requires q.rel == r && forall k: Path :: k.rel == r ==> At(a, k) == At(b, k)
    ensures At(UndoOne(policy, a, r, false, false), q) == At(UndoOne(policy, b, r, false, false), q)
  {
    var outA := Rename(policy, a, Path(App, r), Path(Update, r), false);
    var outB := Rename(policy, b, Path(App, r), Path(Update, r), false);
    assert At(a, Path(App, r)) == At(b, Path(App, r)) && At(a, Path(Update, r)) == At(b, Path(Update, r));
    assert outA.1 == outB.1;
    assert forall k: Path :: k.rel == r ==> At(outA.0, k) == At(outB.0, k);
    assert At(outA.0, Path(App, r)) == At(outB.0, Path(App, r));
    assert At(outA.0, Path(Backup, r)) == At(outB.0, Path(Backup, r));
  }

  /** So a quiet rollback over distinct targets undoes each of them once, independently of the others. */
  lemma {:induction false} UndoPerFile(policy: Policy, fs: Files, paths: seq<string>, faults: Faults, n: nat, q: Path)
    requires n <= |paths| && Distinct(paths[..n]) && QuietRollback(faults) && q.rel in paths[..n]
    ensures At(Undo(policy, fs, paths, faults, n), q) == At(UndoOne(policy, fs, q.rel, false, false), q)
    decreases n
  {
    var p := paths[n - 1];
    var one := UndoOne(policy, fs, p, false, false);
    assert paths[..n] == paths[..n - 1] + [p];
    assert paths[..n][n - 1] == p;
    assert Distinct(paths[..n - 1]) && p !in paths[..n - 1] by {
      assert forall m :: 0 <= m < n - 1 ==> paths[..n - 1][m] == paths[..n][m];
    }
    if q.rel == p {
      UndoLeavesOthers(policy, one, paths, faults, n - 1, q);
    } else {
      UndoPerFile(policy, one, paths, faults, n - 1, q);
      UndoIsLocal(policy, one, fs, q.rel, q);
    }
  }

  /** A repeated target is undone twice. That restores it unless rename replaces and it was installed. */
  lemma UndoRepeat(policy: Policy, fs0: Files, fs: Files, paths: seq<string>, faults: Faults, j: nat, moved: bool)
    requires Ready(fs0, paths) && QuietRollback(faults) && Reached(fs0, paths, j)
    requires IsRepeat(fs0, fs, paths, j, moved) && (moved && policy == Refuse ==> Path(App, paths[j]) !in fs0)
    ensures Undo(policy, fs, paths, faults, j + 1) == fs0 <==> policy == Refuse || Path(App, paths[j]) !in fs0
  {
    var p := paths[j];
    var one := UndoOne(policy, fs, p, false, false);
    var end := Undo(policy, fs, paths, faults, j + 1);
    var k :| 0 <= k < j && paths[k] == p;
    assert p in paths && Path(Update, p) in fs0 && Path(Backup, p) !in fs0;
    assert At(fs, Path(Update, p)) == None;
    assert At(fs, Path(App, p)) == if moved then None else At(fs0, Path(Update, p));
    assert At(fs, Path(Backup, p)) == if moved then At(fs0, Path(Update, p)) else At(fs0, Path(App, p));
    assert end == Undo(policy, one, paths, faults, j);
    TwiceUndone(policy, fs0, fs, p, moved);
    forall q: Path ensures At(end, q) == if q.rel == p then At(UndoOne(policy, one, p, false, false), q)
        else At(fs0, q) {
      if q.rel == p {
        UndoPerFile(policy, one, paths, faults, j, q);
      } else {
        UndoOthers(policy, fs0, fs, paths, faults, j, moved, q);
      }
    }
    if policy == Refuse || Path(App, p) !in fs0 {
      SameEverywhere(end, fs0);
    } else {
      assert At(end, Path(App, p)) == None;
    }
  }

  /** One undoing of a file that was swapped in gives its three places back. */
  lemma UndoRestoresFile(policy: Policy, fs0: Files, fs: Files, r: string)
    requires Path(Update, r) in fs0 && Path(Backup, r) !in fs0
    requires At(fs, Path(App, r)) == At(fs0, Path(Update, r)) && At(fs, Path(Update, r)) == None
    requires At(fs, Path(Backup, r)) == At(fs0, Path(App, r))
    ensures forall q: Path :: q.rel == r ==> At(UndoOne(policy, fs, r, false, false), q) == At(fs0, q)
  {
    var out := Rename(policy, fs, Path(App, r), Path(Update, r), false).0;
    assert At(out, Path(App, r)) == None && At(out, Path(Backup, r)) == At(fs0, Path(App, r));
    var back := UndoOne(policy, fs, r, false, false);
    forall q: Path | q.rel == r ensures At(back, q) == At(fs0, q) {
      match q.root
      case App => assert q == Path(App, r);
      case Update => assert q == Path(Update, r);
      case Backup => assert q == Path(Backup, r);
    }
  }

  /** The two undoings of one file that was swapped in, or swapped in and moved out again. */
  lemma TwiceUndone(policy: Policy, fs0: Files, fs: Files, p: string, moved: bool)
    requires Path(Update, p) in fs0 && Path(Backup, p) !in fs0
    requires moved && policy == Refuse ==> Path(App, p) !in fs0
    requires At(fs, Path(Update, p)) == None
    requires At(fs, Path(App, p)) == if moved then None else At(fs0, Path(Update, p))
    requires At(fs, Path(Backup, p)) == if moved then At(fs0, Path(Update, p)) else At(fs0, Path(App, p))
    ensures var end := UndoOne(policy, UndoOne(policy, fs, p, false, false), p, false, false);
            if policy == Refuse || Path(App, p) !in fs0 then
              forall q: Path :: q.rel == p ==> At(end, q) == At(fs0, q)
            else At(end, Path(App, p)) == None
  {
    var one := UndoOne(policy, fs, p, false, false);
    if moved {
      assert Rename(policy, fs, Path(App, p), Path(Update, p), false).0 == fs;
      assert At(one, Path(App, p)) == At(fs0, Path(Update, p));
      assert At(one, Path(Update, p)) == None && At(one, Path(Backup, p)) == None;
      if Path(App, p) !in fs0 {
        UndoRestoresFile(policy, fs0, one, p);
      }
    } else {
      UndoRestoresFile(policy, fs0, fs, p);
      UndoAtRest(policy, fs0, one, p);
    }
  }

  /** One undoing of a file that is as it was. */
  lemma UndoAtRest(policy: Policy, fs0: Files, fs: Files, r: string)
    requires Path(Update, r) in fs0 && Path(Backup, r) !in fs0
    requires forall q: Path :: q.rel == r ==> At(fs, q) == At(fs0, q)
    ensures var end := UndoOne(policy, fs, r, false, false);
            if policy == Refuse || Path(App, r) !in fs0 then
              forall q: Path :: q.rel == r ==> At(end, q) == At(fs0, q)
            else At(end, Path(App, r)) == None
  {
    assert At(fs, Path(App, r)) == At(fs0, Path(App, r));
    assert At(fs, Path(Update, r)) == At(fs0, Path(Update, r));
    assert At(fs, Path(Backup, r)) == None;
    var out := Rename(policy, fs, Path(App, r), Path(Update, r), false).0;
    assert At(out, Path(Backup, r)) == None;
    assert UndoOne(policy, fs, r, false, false) == out;
  }

  lemma UndoOthers(
      policy: Policy, fs0: Files, fs: Files, paths: seq<string>, faults: Faults, j: nat, moved: bool, q: Path)
    requires Ready(fs0, paths) && QuietRollback(faults) && Reached(fs0, paths, j)
    requires IsRepeat(fs0, fs, paths, j, moved) && q.rel != paths[j]
    ensures At(Undo(policy, UndoOne(policy, fs, paths[j], false, false), paths, faults, j), q) == At(fs0, q)
  {
    var one, r := UndoOne(policy, fs, paths[j], false, false), q.rel;
    assert forall k: Path :: k.rel == r ==> At(one, k) == At(fs, k) == StageAt(fs0, paths, j, false, k);
    if r in paths[..j] {
      UndoPerFile(policy, one, paths, faults, j, q);
      assert r in paths && At(fs0, Path(Backup, r)) == None;
      assert At(one, Path(App, r)) == At(fs0, Path(Update, r)) && At(one, Path(Update, r)) == None;
      assert At(one, Path(Backup, r)) == At(fs0, Path(App, r));
      UndoRestoresFile(policy, fs0, one, r);
    } else {
      UndoLeavesOthers(policy, one, paths, faults, j, q);
    }
  }

  /** Rollback is an exact inverse, for any list and any failure point, exactly when rename refuses, or the
      failing file was not installed before, or it was listed for the first time and had been moved out. */
  lemma RollbackIsExactInverse(policy: Policy, fs: Files, paths: seq<string>, faults: Faults)
    requires Ready(fs, paths) && QuietRollback(faults)
    requires Forward(policy, fs, paths, faults, 0).stop.Failed?
    ensures var stop := Forward(policy, fs, paths, faults, 0).stop;
            Perform(policy, fs, paths, faults).0 == fs <==>
            || policy == Refuse
            || Path(App, paths[stop.index]) !in fs
            || (Late(stop.step) && paths[stop.index] !in paths[..stop.index])
  {
    var run := Forward(policy, fs, paths, faults, 0);
    var last, i := Last(run.states), run.stop.index;
    var half := Late(run.stop.step);
    StartsAtStageZero(fs, paths);
    ForwardStops(policy, fs, fs, paths, faults, 0);
    if paths[i] in paths[..i] {
      UndoRepeat(policy, fs, last, paths, faults, i, half);
    } else if policy == Refuse || half || Path(App, paths[i]) !in fs {
      UndoFailedFile(policy, fs, last, paths, i, half);
      UndoReachesStart(policy, fs, UndoOne(policy, last, paths[i], false, false), paths, faults, i);
    } else {
      UndoTakesTheOriginalAway(fs, last, paths, faults, i);
    }
  }

  // ----- Rollback under failures of its own -----

  /** Path `r` has a file in the app or update folder, and its original content is safe. */
  ghost predicate Guarded(fs0: Files, fs: Files, r: string) {
    && (Path(App, r) in fs || Path(Update, r) in fs)
    && (|| At(fs, Path(Backup, r)) == At(fs0, Path(App, r))
        || (At(fs, Path(App, r)) == At(fs0, Path(App, r)) && Path(Update, r) in fs))
  }

  lemma {:induction false} UndoKeepsGuard(fs0: Files, fs: Files, paths: seq<string>, faults: Faults, n: nat, r: string)
    requires n <= |paths| && Path(App, r) in fs0 && Guarded(fs0, fs, r)
    ensures Guarded(fs0, Undo(Refuse, fs, paths, faults, n), r)
    decreases n
  {
    if n > 0 {
      var p := paths[n - 1];
      var out := Rename(Refuse, fs, Path(App, p), Path(Update, p), faults.undoOut(n - 1)).0;
      assert Guarded(fs0, out, r) by {
        assert At(out, Path(Backup, r)) == At(fs, Path(Backup, r));
        assert p != r ==>
          At(out, Path(App, r)) == At(fs, Path(App, r)) && At(out, Path(Update, r)) == At(fs, Path(Update, r));
      }
      var back := Rename(Refuse, out, Path(Backup, p), Path(App, p), faults.undoIn(n - 1)).0;
      assert Guarded(fs0, back, r) by {
        assert At(back, Path(Update, r)) == At(out, Path(Update, r));
        assert p != r ==>
          At(back, Path(App, r)) == At(out, Path(App, r)) && At(back, Path(Backup, r)) == At(out, Path(Backup, r));
      }
      UndoKeepsGuard(fs0, back, paths, faults, n - 1, r);
    }
  }

  lemma StageIsGuarded(fs0: Files, last: Files, paths: seq<string>, i: nat, half: bool, r: string)
    requires IsStage(fs0, last, paths, i, half) && Path(App, r) in fs0 && Path(Update, r) in fs0
    ensures Guarded(fs0, last, r)
  {
    assert At(last, Path(App, r)) == StageAt(fs0, paths, i, half, Path(App, r));
    assert At(last, Path(Update, r)) == StageAt(fs0, paths, i, half, Path(Update, r));
    assert At(last, Path(Backup, r)) == StageAt(fs0, paths, i, half, Path(Backup, r));
  }

  lemma RepeatIsGuarded(fs0: Files, last: Files, paths: seq<string>, j: nat, moved: bool, r: string)
    requires IsRepeat(fs0, last, paths, j, moved) && (moved ==> Path(App, paths[j]) !in fs0)
    requires Path(App, r) in fs0 && Path(Update, r) in fs0
    ensures Guarded(fs0, last, r)
  {
    assert At(last, Path(App, r)) == StageAt(fs0, paths, j, false, Path(App, r));
    assert At(last, Path(Update, r)) == StageAt(fs0, paths, j, false, Path(Update, r));
    assert At(last, Path(Backup, r)) == StageAt(fs0, paths, j, false, Path(Backup, r));
  }

  /** With a refusing rename no failure of the update, nor any further failure of the rollback, loses an
      original, whatever the list, as long as the staged files are there. */
  lemma FailingRollbackKeepsOriginals(fs: Files, paths: seq<string>, faults: Faults)
    requires forall p :: p in paths ==> Path(Update, p) in fs
    ensures OriginalsKept(fs, Perform(Refuse, fs, paths, faults).0, paths)
  {
    var run := Forward(Refuse, fs, paths, faults, 0);
    var last := Last(run.states);
    StartsAtStageZero(fs, paths);
    ForwardStops(Refuse, fs, fs, paths, faults, 0);
    match run.stop
    case Done => StageIsKept(fs, last, paths, |paths|, false);
    case Failed(i, step) =>
      forall r | Path(App, r) in fs
        ensures var end := Undo(Refuse, last, paths, faults, i + 1);
                || At(end, Path(App, r)) == At(fs, Path(App, r))
                || (r in paths && At(end, Path(Backup, r)) == At(fs, Path(App, r)))
      {
        if r in paths {
          if paths[i] in paths[..i] {
            RepeatIsGuarded(fs, last, paths, i, Late(step), r);
          } else {
            StageIsGuarded(fs, last, paths, i, Late(step), r);
          }
          UndoKeepsGuard(fs, last, paths, faults, i + 1, r);
        } else {
          UndoLeavesOthers(Refuse, last, paths, faults, i + 1, Path(App, r));
          LoopLeavesOthers(Refuse, fs, paths, faults, 0, Path(App, r));
        }
      }
  }
}
