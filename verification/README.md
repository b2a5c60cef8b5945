# Verification of the MEGA desktop self-updater and its small state machines

This project models, in Dafny, the parts of the MEGA desktop application where several steps have to fit
together, and proves what they are meant to guarantee. Its centre is the self-updater: the program that
prints and signs an update manifest, and the updater that reads it, fetches what is missing, and installs a set
of files with nothing but `rename`, rolling back when a step fails. Around it stand the codec and the signature
comparison both programs rely on, the recursive delete that cleans the updater's folders, and six small state
machines of the application itself.

`dafny verify dfyconfig.toml` checks everything. One module per component:

| file | component |
|---|---|
| `Wrappers.dfy`, `Sets.dfy` | an option type; sizes of finite sets |
| `FileSystem.dfy` | the application, update and backup folders as one map, and `rename` with its two behaviours: refusing an existing target (Windows) or replacing it (POSIX) |
| `Installer.dfy` | `performUpdate` and `rollbackUpdate` as a run of file systems, so that every intermediate state can be spoken of |
| `Decimal.dfy`, `Text.dfy` | decimal printing and parsing; lines as `fgets`, `strcspn` and `getline` see them |
| `Generator.dfy` | the manifest producer: contents file, signing loop, printing |
| `Manifest.dfy` | the updater's reading of a manifest, and the round trip between the two programs |
| `Updater.dfy` | class `UpdateTask`: its methods, proved equal to a specification of one run |
| `Runs.dfy` | what whole runs guarantee, alone, in sequence, and after a crash |
| `Outcomes.dfy` | exactly when downloads, installations and runs succeed, and what they leave path by path |
| `Base64.dfy`, `Signature.dfy` | the codec over buffers; signature padding and the final comparison |
| `RecursiveDelete.dfy` | `emptydirlocal` and `removeRecursively` on POSIX |
| `AsyncHandler.dfy` | producers, stoppers and one worker as interleaved steps |
| `TransferQuota.dfy`, `NetworkChange.dfy`, `AccountDetails.dfy`, `ScanStage.dfy`, `ScaleFactor.dfy`, `DeviceName.dfy` | the application's small state machines |

Code that works on fields, buffers or vectors is a class or a method with loops; each such method is proved
against a function, and the theorems are about that function. A file's signature check is a function parameter
`verify(content, signature)`, and every failure the environment can cause (a folder that cannot be made, a
rename that fails, a download that leaves anything behind) is an arbitrary parameter of the theorems.

## What was found

Where a property one would expect does not hold of the code, the code is kept and the exact condition is proved.

- `rollbackUpdate(i)` also undoes file `i`. If that file had not been moved out yet (failure at line 566 or 574)
  and `rename` replaces, the original is moved into the update folder. `RollbackIsExactInverse` gives the
  condition for every list and every failure point, both ways; `UndoTakesTheOriginalAway` is the failing family.
- A manifest that lists a pending target twice can never be installed: the loop always fails on the second one
  (`RepeatFails`, `SuccessInstallsEverything`). With a replacing rename that second round moves the new file over
  the only backup, so the original is destroyed: `RepeatDestroysOriginal` follows it to the end of the rollback,
  and `ReplacingKeepsOriginalsExactly` says for which lists and files originals are kept, both ways. With a refusing
  rename they always are (`NoOriginalIsLost`, `FailingRollbackKeepsOriginals`).
- An original that a failed rollback or a crash left in the backup alone does not survive the next accepted
  manifest, which begins by emptying the backup (`BackupSurvivesExactly`, both ways).
- The signed stream joins the manifest's fields without separators, so a stream determines a manifest only together
  with the lengths of its fields (`StreamDeterminesShaped`, `AcceptedIsPublishedExactly`, `BoundariesAreNotSigned`).
- The generator signs the text of the version but prints the number parsed from it, so the two programs hash the
  same stream exactly when that text is the printed form of the number (`StreamsAgreeExactly`).
- A contents line without a second field puts the hash vector out of step; the generator then always stops before
  printing (`PrintingNeedsEveryTarget`).
- After a crash that left every file installed, a rerun finds nothing pending and ends without writing the version
  (last clause of `CrashConverges`).
- `atob` turns a single dangling digit into a byte (function `Decode`), so encoding gives a text back exactly when it
  is canonical (`EncodedDecoded`).
- In `AccountDetailsManager` the throttle compares the clock with a `static` local that is frozen at zero by its first
  use, so it never holds a request back (`UpdateUserStats`, second clause); a reply to a request sent before a reset
  clears bits of later requests (`StaleReplyHarmlessExactly`).
- Moving into WARNING inside `checkExecuteAlerts` runs two rounds of warnings, so the "almost over quota" message can
  be asked for twice (`CheckExecuteAlerts`).
- The gate of the "almost over quota" message uses the 36-hour pause of the over-quota message; the 72-hour constant
  declared for it is not used.
- The test for network changes compares list lengths, so it can be wrong when addresses are listed repeatedly:
  `NetworkChangeMissedExactly` and `NetworkFalseAlarmExactly` say exactly when a change is missed or reported in vain;
  `RepeatedAddressHidesChange` is an input of the first kind.

## Model

| member | source | states |
|---|---|---|
| FileSystem.Rename | megadesktop/src/MEGAUpdater/UpdateTask.cpp:572-592 | a rename succeeds exactly when the source exists, nothing outside intervenes and, on Windows, the target is free; it then moves one content and changes no other path; otherwise it changes nothing |
| FileSystem.RefusingRenameConserves | megadesktop/src/MEGAUpdater/UpdateTask.cpp:572-592 | a refusing rename keeps, for every content, the number of places that hold it |
| Installer.ForwardStops | megadesktop/src/MEGAUpdater/UpdateTask.cpp:559-616 | where the loop stops, for any list: after all files, or at file `j` with the earlier targets distinct and staged, and file `j` in place or moved out by step; or, if `j` repeats a target, with its new content in place or moved over the backup |
| Installer.RepeatFails | megadesktop/src/MEGAUpdater/UpdateTask.cpp:563-594 | a target that was already swapped in makes the loop fail: its staged file is gone |
| Installer.RepeatedFile | megadesktop/src/MEGAUpdater/UpdateTask.cpp:565-595 | the round of a repeated target always fails; a move-out has by then put the new content into the backup and left nothing else of the file, and with refusing rename happens only if there was no original |
| Installer.FileStages | megadesktop/src/MEGAUpdater/UpdateTask.cpp:565-595 | one round takes the files from stage `i` to `i + 1`, or stops with file `i` untouched or moved out, according to the step that failed; which step that is, is `StopsExactly` |
| Installer.ForwardEnds | megadesktop/src/MEGAUpdater/UpdateTask.cpp:559-616 | where the loop ends, stated path by path without following it: all files swapped, or the first `j` swapped and file `j` still in place or moved out according to the failing step |
| Installer.ForwardStages | megadesktop/src/MEGAUpdater/UpdateTask.cpp:563-609 | every file system the loop passes through is one of those stages |
| Installer.DoneMeansDistinctFrom | megadesktop/src/MEGAUpdater/UpdateTask.cpp:563-615 | a loop that finishes never saw a target twice |
| Installer.SuccessInstallsEverything | megadesktop/src/MEGAUpdater/UpdateTask.cpp:559-616 | a successful update named every path once, put each staged file at its application path, moved each original to the backup, and touched nothing else |
| Installer.NothingElseFails | megadesktop/src/MEGAUpdater/UpdateTask.cpp:559-616 | with distinct targets, staged files present and free backup slots, the loop fails only if the environment makes it fail |
| Installer.StopsExactly | megadesktop/src/MEGAUpdater/UpdateTask.cpp:559-616 | for any list, starting files and failures, the loop stops at file `j` and step `s` if and only if every earlier file passes and `s` is the first of its steps (backup folder, move out, target folder, move in) that fails for `j`: by a fault, an occupied backup slot where rename refuses, a missing staged file, or a repeated target; and it finishes if and only if all files pass |
| Installer.SucceedsExactly | megadesktop/src/MEGAUpdater/UpdateTask.cpp:559-616 | the update succeeds if and only if the targets are distinct and each is staged, has no fault with its folders or its move in, and, if installed, none with its move out and, where rename refuses, a free backup slot |
| Installer.StatesAreOneRenameApart | megadesktop/src/MEGAUpdater/UpdateTask.cpp:563-609 | each file system the loop passes through is one rename, out to the backup or in from the update folder, away from the one before, so no point where it could be interrupted is left out |
| Installer.NoOriginalIsLost | megadesktop/src/MEGAUpdater/UpdateTask.cpp:563-609 | for any list: in every intermediate state each original is at its application path or, if it is being updated, in the backup, with its content, when rename refuses or no installed target staged with another content is listed again; files that are no target are unchanged in any case |
| Installer.ReplacingKeepsOriginalsExactly | megadesktop/src/MEGAUpdater/UpdateTask.cpp:563-609 | with replacing rename, originals are kept in every state under every choice of failures if and only if no installed target, staged with another content, is listed again where the loop can reach it |
| Installer.RepeatDestroysOriginal | megadesktop/src/MEGAUpdater/UpdateTask.cpp:572-593 | the failing family to the end: the update fails and, whatever the rollback does, a content only that original held is nowhere any more |
| Installer.RefusingUpdateConserves | megadesktop/src/MEGAUpdater/UpdateTask.cpp:559-629 | with refusing rename, in every intermediate state and after any rollback, failing or not, the multiset of contents over the three folders is that of the start |
| Installer.UndoSwappedFile | megadesktop/src/MEGAUpdater/UpdateTask.cpp:618-629 | undoing the last swapped file takes the files back one stage exactly |
| Installer.UndoReachesStart | megadesktop/src/MEGAUpdater/UpdateTask.cpp:618-629 | rolling back `k` swapped files gives the original file system back |
| Installer.UndoFailedFile | megadesktop/src/MEGAUpdater/UpdateTask.cpp:618-629 | rolling back the file that failed restores its stage when it was moved out, was not installed, or rename refuses |
| Installer.UndoLeavesOthers | megadesktop/src/MEGAUpdater/UpdateTask.cpp:618-629 | rollback, failing or not, touches no path outside the files it undoes, in any folder |
| Installer.UndoRepeat | megadesktop/src/MEGAUpdater/UpdateTask.cpp:618-629 | a repeated target is undone twice, which restores the start if and only if rename refuses or the target was not installed |
| Installer.UndoTakesTheOriginalAway | megadesktop/src/MEGAUpdater/UpdateTask.cpp:566-578 | with replacing rename, a rollback after a failure before the move-out takes the original out of the application folder and leaves it in the update folder |
| Installer.RollbackIsExactInverse | megadesktop/src/MEGAUpdater/UpdateTask.cpp:559-629 | for every list and every failure point, under both renames: the files after rollback are exactly those before the update if and only if rename refuses, or the failing file was not installed before, or it was listed for the first time and the failure came after its move-out |
| Installer.FailingRollbackKeepsOriginals | megadesktop/src/MEGAUpdater/UpdateTask.cpp:559-629 | with refusing rename and the staged files present, for any list, whatever fails in the update and then in the rollback, every original is at its application path or in the backup |
| Decimal.ParsePrint | megadesktop/src/MEGAUpdateGenerator/MEGAUpdateGenerator.cpp:493 | every integer printed in decimal is read back as itself |
| Decimal.PrintInjective | megadesktop/src/MEGASync/UserAttributesRequests/DeviceName.cpp:156-157 | different numbers print differently |
| Decimal.PrintedDigits | megadesktop/src/MEGAUpdateGenerator/MEGAUpdateGenerator.cpp:493 | numbers are printed in decimal, most significant digit first, negative ones with a minus sign |
| Decimal.ParseExactly | megadesktop/src/MEGAUpdateGenerator/MEGAUpdateGenerator.cpp:414-415 | spaces, a sign, zeros and a number are read as that number, whatever follows its last digit |
| Decimal.NoDigitsIsZero | megadesktop/src/MEGAUpdateGenerator/MEGAUpdateGenerator.cpp:414-420 | a text without digits where a number should stand is read as zero |
| Decimal.StrtolIsNearest | megadesktop/src/MEGAUpdateGenerator/MEGAUpdateGenerator.cpp:414-415 | `strtol` gives the number read, or the nearest 64-bit `long` |
| Decimal.AtoiIsCut | megadesktop/src/MEGAUpdater/UpdateTask.cpp:462 | `atoi` gives the `int` that agrees with it in the last 32 bits |
| Decimal.LongIsShort | megadesktop/src/MEGAUpdateGenerator/MEGAUpdateGenerator.cpp:414-415 | a printed `long` fits any manifest line: at most 20 characters |
| Decimal.ReadBackAsInt | megadesktop/src/MEGAUpdater/UpdateTask.cpp:462 | a printed `long` survives `strtol`, and survives `atoi` if and only if it fits an `int` |
| Text.NextLineExactly | megadesktop/src/MEGAUpdater/UpdateTask.cpp:823-833 | one call consumes up to the first newline, the end of the file or a full buffer, leaves exactly the rest, and returns what stands before the first newline or NUL |
| Text.ReadsBackExactly | megadesktop/src/MEGAUpdater/UpdateTask.cpp:823-833 | a printed field is read back as itself, leaving exactly the rest, if and only if it has no newline, no NUL and at most 4094 characters |
| Text.TextComesBack | megadesktop/src/MEGAUpdateGenerator/MEGAUpdateGenerator.cpp:343-345 | the lines of a file, each with its newline, are the file, its last line completed |
| Text.LinesComeBack | megadesktop/src/MEGAUpdateGenerator/MEGAUpdateGenerator.cpp:343-345 | lines written one after another are read back as the same list |
| Generator.ReadContentsFile | megadesktop/src/MEGAUpdateGenerator/MEGAUpdateGenerator.cpp:340-392 | the line loop accumulates what all the lines, in order, contribute |
| Generator.LineFields | megadesktop/src/MEGAUpdateGenerator/MEGAUpdateGenerator.cpp:347-376 | a line made of three clean fields adds exactly those fields to the three vectors |
| Generator.TwoFieldLine | megadesktop/src/MEGAUpdateGenerator/MEGAUpdateGenerator.cpp:352-376 | a line with a target and nothing after it adds file and target, with an unknown hash |
| Generator.OneFieldLine | megadesktop/src/MEGAUpdateGenerator/MEGAUpdateGenerator.cpp:352-376 | a line without a target is its own target and adds no hash |
| Generator.ReturnIsIgnored | megadesktop/src/MEGAUpdateGenerator/MEGAUpdateGenerator.cpp:347-350 | one carriage return at the end of a line changes nothing |
| Generator.OtherLinesAreIgnored | megadesktop/src/MEGAUpdateGenerator/MEGAUpdateGenerator.cpp:351-391 | empty lines and comments that are no setting add nothing |
| Generator.NothingRead | megadesktop/src/MEGAUpdateGenerator/MEGAUpdateGenerator.cpp:333-343 | before any line nothing is listed and the base URL is a marker |
| Generator.VersionLineRead | megadesktop/src/MEGAUpdateGenerator/MEGAUpdateGenerator.cpp:379-382 | the version setting is read into the version and changes nothing else |
| Generator.BaseUrlLineRead | megadesktop/src/MEGAUpdateGenerator/MEGAUpdateGenerator.cpp:383-386 | the base URL setting is read into the base URL and changes nothing else |
| Generator.KeyHashLineRead | megadesktop/src/MEGAUpdateGenerator/MEGAUpdateGenerator.cpp:387-390 | the key hash setting is read into the key hash and changes nothing else |
| Generator.ItemsReadBack | megadesktop/src/MEGAUpdateGenerator/MEGAUpdateGenerator.cpp:345-376 | after any lines, a list of clean items comes back in the three vectors item by item in order, and no setting is touched |
| Generator.SignAll | megadesktop/src/MEGAUpdateGenerator/MEGAUpdateGenerator.cpp:422-462 | the signing loop ends as specified, and while signing has hashed the version text and every entry so far |
| Generator.SignedInOrder | megadesktop/src/MEGAUpdateGenerator/MEGAUpdateGenerator.cpp:424-462 | entry `k` is listed file `k`: its URL under the base URL, its target, its signature, its hash checked unless unknown |
| Generator.SignedExactly | megadesktop/src/MEGAUpdateGenerator/MEGAUpdateGenerator.cpp:424-448 | signing goes through if and only if no hash entry is missing and every file can be signed and has its hash |
| Generator.Run | megadesktop/src/MEGAUpdateGenerator/MEGAUpdateGenerator.cpp:332-502 | the method reads, signs and ends as the function `Generate`; which end that is, is `PrintsExactly` and `StopsInOrder` |
| Generator.PrintsExactly | megadesktop/src/MEGAUpdateGenerator/MEGAUpdateGenerator.cpp:340-502 | for any contents text a manifest is printed if and only if the key hash matches, the version text is read as a number other than 0, every listed file has its target and hash and can be signed, and the stream can be signed |
| Generator.StopsInOrder | megadesktop/src/MEGAUpdateGenerator/MEGAUpdateGenerator.cpp:394-492 | otherwise the exit code says which of these failed first: 7 for the key hash, then 5 for the version, then the first file that cannot be signed, then 6 for the stream |
| Generator.FileStops | megadesktop/src/MEGAUpdateGenerator/MEGAUpdateGenerator.cpp:421-462 | the signing loop stops at the first file that cannot be signed, with the outcome of the first of its steps that fails |
| Generator.PrintedByLine | megadesktop/src/MEGAUpdateGenerator/MEGAUpdateGenerator.cpp:492-500 | what is printed is the version, the signature, and URL, path and signature of each entry, a line each |
| Generator.PrintedEntries | megadesktop/src/MEGAUpdateGenerator/MEGAUpdateGenerator.cpp:394-462 | a printed manifest has the parsed version, was made with the expected key, and has one entry for each listed file, in order |
| Generator.ContentsFileIsFollowed | megadesktop/src/MEGAUpdateGenerator/MEGAUpdateGenerator.cpp:340-502 | for a contents file of settings and items a manifest is printed if and only if the key hash matches, the version is a number other than 0, each item can be signed and so can the stream; it then has that version, the items in order, each under the base URL with its target and its file's signature, and the signature of exactly their stream |
| Generator.PrintingNeedsEveryTarget | megadesktop/src/MEGAUpdateGenerator/MEGAUpdateGenerator.cpp:370-376 | a manifest is printed only if every listed line has a target field, and then has one entry per listed line |
| Manifest.EntryReadsBackExactly | megadesktop/src/MEGAUpdater/UpdateTask.cpp:481-500 | three printed lines are read as the entry they were printed from, leaving exactly the rest, if and only if each field is non-empty and fits a line |
| Manifest.PendingIsTheRest | megadesktop/src/MEGAUpdater/UpdateTask.cpp:506-516 | an entry is pending, under its native path and otherwise as listed, if and only if it is not installed yet; what the native path is, is `NativeExactly` |
| Manifest.Native | megadesktop/src/MEGAUpdater/UpdateTask.cpp:171-176 | every `/` and `\` becomes the platform's own separator and every other character stays |
| Manifest.NativeExactly | megadesktop/src/MEGAUpdater/UpdateTask.cpp:506 | no foreign separator is left, and two paths have one native form if and only if they agree up to the choice of separators |
| Manifest.PendingIsNative | megadesktop/src/MEGAUpdater/UpdateTask.cpp:506-516 | a pending path has no foreign separator and is the path of an entry up to the choice of separators, with that entry's URL and signature, and what is installed there does not verify |
| Manifest.PendingKeepsOrder | megadesktop/src/MEGAUpdater/UpdateTask.cpp:478-516 | the pending entries are those of a first part of the list followed by those of the rest, so they keep its order and its repetitions |
| Manifest.EntriesReadBack | megadesktop/src/MEGAUpdateGenerator/MEGAUpdateGenerator.cpp:495-500 | the printed entries are parsed back as the same list |
| Manifest.ListEndsAtEmptyLine | megadesktop/src/MEGAUpdater/UpdateTask.cpp:481-486 | the list ends at an empty line or the end of the file, whatever follows |
| Manifest.CutAfterUrl | megadesktop/src/MEGAUpdater/UpdateTask.cpp:481-493 | a list that ends after a URL is malformed |
| Manifest.CutAfterPath | megadesktop/src/MEGAUpdater/UpdateTask.cpp:488-500 | and so is one that ends after a path |
| Manifest.StreamIsThePrintedList | megadesktop/src/MEGAUpdater/UpdateTask.cpp:475-504 | what is hashed of the entries is the printed list without its newlines |
| Manifest.ManifestReadsBack | megadesktop/src/MEGAUpdater/UpdateTask.cpp:445-500 | version, signature and entries of a printed manifest are what the updater reads, in order |
| Manifest.StreamsAgreeExactly | megadesktop/src/MEGAUpdater/UpdateTask.cpp:475-504 | whatever the updater skips, it hashes the stream the generator signed if and only if the version text is canonical decimal |
| Manifest.JudgeReadable | megadesktop/src/MEGAUpdater/UpdateTask.cpp:445-531 | a readable manifest is accepted, with its version and pending entries, if and only if it is newer, something is pending and its stream verifies |
| Manifest.AcceptsExactly | megadesktop/src/MEGAUpdater/UpdateTask.cpp:445-531 | any text whatever is accepted if and only if its first two lines are not empty, its version is above the installed one, which is known, its list is well formed, something in it is not installed, and its stream verifies; it is then followed with that version and exactly the entries not installed |
| Manifest.SignedManifestIsFollowed | megadesktop/src/MEGAUpdater/UpdateTask.cpp:445-531 | a generated manifest with canonical version, signed by the matching key, is accepted if and only if it is newer than what is installed and something is pending |
| Manifest.StreamDeterminesShaped | megadesktop/src/MEGAUpdater/UpdateTask.cpp:475-504 | two manifests with the same signed stream are the same if and only if their fields have the same lengths |
| Manifest.BoundariesAreNotSigned | megadesktop/src/MEGAUpdater/UpdateTask.cpp:502-504 | text on either side of the boundary between URL and path gives the same stream |
| Manifest.AcceptedIsPublishedExactly | megadesktop/src/MEGAUpdater/UpdateTask.cpp:445-531 | when a signature verifies for the published stream only, an accepted manifest has that stream, and is the published one if and only if its fields have the published lengths |
| Updater.Cleaned | megadesktop/src/MEGAUpdater/UpdateTask.cpp:631-641 | a cleanup removes what can be removed from one folder and leaves every other path alone |
| Updater.UpdateTask.constructor | megadesktop/src/MEGAUpdater/UpdateTask.cpp:309-330 | a task starts with empty vectors over the given files |
| Updater.UpdateTask.ProcessUpdateFile | megadesktop/src/MEGAUpdater/UpdateTask.cpp:445-531 | the method accepts exactly the manifests the specification accepts (`AcceptsExactly`), and then holds their version, pending entries and hashed stream |
| Updater.UpdateTask.ReadEntries | megadesktop/src/MEGAUpdater/UpdateTask.cpp:478-516 | the reading loop fails exactly on a malformed list, and otherwise has hashed all entries and kept those not installed |
| Updater.UpdateTask.Keep | megadesktop/src/MEGAUpdater/UpdateTask.cpp:506-516 | an entry is appended, under its native path, to all three vectors or, if installed, to none |
| Updater.UpdateTask.InstallFile | megadesktop/src/MEGAUpdater/UpdateTask.cpp:565-595 | one round of the loop leaves the files, and stops at the step, that the specification says; which step that is, is `StopsExactly` |
| Updater.UpdateTask.PerformUpdate | megadesktop/src/MEGAUpdater/UpdateTask.cpp:559-616 | the loop with its rollback is the specified transaction, and passes through exactly the specified file systems; when it succeeds is `SucceedsExactly` |
| Updater.UpdateTask.RollbackUpdate | megadesktop/src/MEGAUpdater/UpdateTask.cpp:618-629 | the descending loop undoes files `fileNum` down to 0 |
| Updater.UpdateTask.FetchMissing | megadesktop/src/MEGAUpdater/UpdateTask.cpp:351-391 | the loop does what the specification says, which `DownloadExactly` spells out |
| Updater.UpdateTask.CheckForUpdates | megadesktop/src/MEGAUpdater/UpdateTask.cpp:309-408 | one run leaves the files and version, finishes or not, and downloads, as the specification says, which `FinishesExactly` and `FinishedLeaves` spell out |
| Updater.UpdateTask.InstallPending | megadesktop/src/MEGAUpdater/UpdateTask.cpp:346-401 | from the initial cleanup on, the run is the specified one, which `InstallFinishesExactly` and `FinishedInstallLeaves` spell out |
| Outcomes.DownloadExactly | megadesktop/src/MEGAUpdater/UpdateTask.cpp:351-391 | the download loop succeeds if and only if each entry is found staged and verified when its turn comes, or its folder can be made and its download succeeds and verifies; it stops at the first entry that is not so, leaves all earlier ones staged, and fetches exactly those not found staged, in order |
| Outcomes.InstallFinishesExactly | megadesktop/src/MEGAUpdater/UpdateTask.cpp:346-401 | an installation finishes if and only if its targets are distinct, each is staged and verified already or can be downloaded, and none is disturbed on disk |
| Outcomes.FinishedInstallLeaves | megadesktop/src/MEGAUpdater/UpdateTask.cpp:346-401 | path by path, what it then leaves in the three folders |
| Outcomes.FinishesExactly | megadesktop/src/MEGAUpdater/UpdateTask.cpp:309-408 | a whole run finishes if and only if a manifest arrives, is accepted, and its pending entries have distinct targets, are obtainable and are not disturbed by their folders, their renames or, where rename refuses, a backup that cannot be deleted |
| Outcomes.FinishedLeaves | megadesktop/src/MEGAUpdater/UpdateTask.cpp:309-408 | path by path: every pending target holds its staged content and no other application file changed; the update folder holds nothing but files that cannot be deleted and are no target; the backup holds the original of each installed target and, apart from them, only files that cannot be deleted |
| Outcomes.StoppedDownloadLeaves | megadesktop/src/MEGAUpdater/UpdateTask.cpp:346-391 | a run that stops at a download, its targets being distinct, leaves the application folder and the version as they were, the backup emptied, the earlier entries staged, and every later one as it was |
| Runs.DownloadOnlyStages | megadesktop/src/MEGAUpdater/UpdateTask.cpp:351-391 | downloading changes no path but the staged files of pending entries |
| Runs.DownloadVerifies | megadesktop/src/MEGAUpdater/UpdateTask.cpp:351-391 | when all downloads succeeded every pending path has a staged file that verifies |
| Runs.DownloadsPrepare | megadesktop/src/MEGAUpdater/UpdateTask.cpp:346-394 | after the downloads the installation finds its staged files present and its backup slots free |
| Runs.InstallPutsPending | megadesktop/src/MEGAUpdater/UpdateTask.cpp:346-401 | a finished installation put verified content at every pending path and left the other application files alone |
| Runs.FinishedMeansVerified | megadesktop/src/MEGAUpdater/UpdateTask.cpp:309-408 | a run that reaches its final cleanup leaves every manifest path, skipped, reused or downloaded, with content that verifies (for skipped entries: if entries for one target agree on its signature) |
| Runs.SkippedStaysVerifiedExactly | megadesktop/src/MEGAUpdater/UpdateTask.cpp:309-408 | an entry found installed still verifies after a finished run if and only if no pending entry has its target or what was downloaded for that target verifies for it too |
| Runs.UnverifiedManifestChangesNothing | megadesktop/src/MEGAUpdater/UpdateTask.cpp:336-345 | no file and no version changes in a run whose manifest stream did not verify |
| Runs.VersionFollowsManifest | megadesktop/src/MEGAUpdater/UpdateTask.cpp:462-466 | only a finished run changes the version, to the manifest's, which is newer |
| Runs.OnlyPendingTargetsChange | megadesktop/src/MEGAUpdater/UpdateTask.cpp:309-408 | whatever fails, an application file that changed is the target of an entry of a verified manifest that was not installed |
| Runs.RunIsAllOrNothing | megadesktop/src/MEGAUpdater/UpdateTask.cpp:309-408 | a run finishes or leaves every application file as it was, if rollback's own renames work and, where rename replaces, no target is listed twice and no file fails before it was moved out |
| Runs.VersionNeverDecreases | megadesktop/src/MEGAUpdater/UpdateTask.cpp:462-466 | over any sequence of runs the version never goes back |
| Runs.WindowsRunKeepsOriginals | megadesktop/src/MEGAUpdater/UpdateTask.cpp:309-408 | on Windows a run, whatever fails in it, leaves every original in the application folder or in the backup |
| Runs.BackupSurvivesExactly | megadesktop/src/MEGAUpdater/UpdateTask.cpp:346-408 | a content left in the backup alone, and not delivered again, survives the next run if and only if that run accepts no manifest or cannot delete the file |
| Runs.OnlyVouchedContentArrives | megadesktop/src/MEGAUpdater/UpdateTask.cpp:309-408 | over any sequence of runs with any failures, the application and backup folders only hold content they held at the start or content that verifies against an entry of a verified manifest |
| Runs.DownloadSucceeds | megadesktop/src/MEGAUpdater/UpdateTask.cpp:351-391 | if every entry is staged or obtainable the downloads succeed, and fetch only what was not staged |
| Runs.QuietInstallFinishes | megadesktop/src/MEGAUpdater/UpdateTask.cpp:346-401 | whatever an earlier run left behind, an accepted manifest installs when its files are obtainable and nothing fails on its own |
| Runs.CrashLosesNothing | megadesktop/src/MEGAUpdater/UpdateTask.cpp:559-609 | at every point of the installation loop each entry is installed or still staged and verified |
| Runs.CrashConverges | megadesktop/src/MEGAUpdater/UpdateTask.cpp:309-408 | after a crash at any point of the loop, a quiet rerun on the same manifest downloads nothing and ends with every entry verified in place; it writes the version if and only if something was left to install |
| Runs.PublishedUpdateArrives | megadesktop/src/MEGAUpdater/UpdateTask.cpp:309-408 | from the contents file to the disk: a generated, canonically numbered, validly signed manifest whose files are obtainable ends up installed entry by entry, with its version recorded |
| Base64.ToFrom64 | megadesktop/src/MEGAUpdater/UpdateTask.cpp:1140-1195 | every 6-bit value survives its character |
| Base64.FromTo64 | megadesktop/src/MEGAUpdater/UpdateTask.cpp:1140-1195 | a character is no digit or a 6-bit value, and survives if and only if it is not one of the two alternative spellings |
| Base64.AlphabetExactly | megadesktop/src/MEGAUpdater/UpdateTask.cpp:1140-1195 | the characters are those of table 2 in section 5 of RFC 4648, the URL-safe alphabet; the only others accepted are `+` and `/`, as 62 and 63 |
| Base64.DecodeEncode | megadesktop/src/MEGAUpdater/UpdateTask.cpp:1206-1292 | on digits, decoding inverts encoding for every byte string |
| Base64.EncodeDecode | megadesktop/src/MEGAUpdater/UpdateTask.cpp:1206-1292 | on digits, encoding inverts decoding if and only if there is no dangling digit and no set bit past the last byte |
| Base64.EncodeRegroupsBits | megadesktop/src/MEGAUpdater/UpdateTask.cpp:1257-1292 | the digits carry the bits of the bytes in order, six to a digit, zero bits filling the last (section 4 of RFC 4648) |
| Base64.DecodeRegroupsBits | megadesktop/src/MEGAUpdater/UpdateTask.cpp:1206-1247 | without a dangling digit the bytes carry the bits of the digits in order, canonical or not, as many as make up whole bytes |
| Base64.DanglingDigit | megadesktop/src/MEGAUpdater/UpdateTask.cpp:1206-1247 | a digit left over after whole groups yields one more byte: its six bits and two set ones |
| Base64.DigitsOfAt | megadesktop/src/MEGAUpdater/UpdateTask.cpp:1214-1222 | each digit read is that of its character |
| Base64.DecodedEncoded | megadesktop/src/MEGAUpdater/UpdateTask.cpp:1206-1292 | decoding an encoded text gives the bytes back, whatever follows the text |
| Base64.EncodedDecoded | megadesktop/src/MEGAUpdater/UpdateTask.cpp:1206-1292 | encoding what was decoded gives the text back if and only if the text is canonical |
| Base64.WriteBlock | megadesktop/src/MEGAUpdater/UpdateTask.cpp:1261-1287 | one round of `btoa` writes the next two to four characters and touches nothing else in the buffer |
| Base64.WriteBlocks | megadesktop/src/MEGAUpdater/UpdateTask.cpp:1257-1287 | the loop of `btoa` writes exactly the encoding and leaves the rest of the buffer |
| Base64.Btoa | megadesktop/src/MEGAUpdater/UpdateTask.cpp:1257-1292 | `btoa` writes the encoding and one NUL, nothing else, and returns the encoding's length |
| Base64.ReadGroup | megadesktop/src/MEGAUpdater/UpdateTask.cpp:1216-1222 | the inner loop takes the next digits, at most four, and looks no further than the first character that is none |
| Base64.WriteGroup | megadesktop/src/MEGAUpdater/UpdateTask.cpp:1229-1243 | a group's bytes are written as far as the buffer has room, nothing else is touched, and the loop goes on exactly after a full group with room |
| Base64.Atob | megadesktop/src/MEGAUpdater/UpdateTask.cpp:1206-1247 | `atob` writes the decoded bytes cut to the buffer and nothing past them, and reads at most one character past the digits |
| Base64.SizesSuffice | megadesktop/src/MEGAUpdater/UpdateTask.cpp:1198-1255 | the buffer sizes computed by the string overloads and for the public key always suffice |
| Base64.AtobString | megadesktop/src/MEGAUpdater/UpdateTask.cpp:1198-1204 | the string overload returns the whole decoding |
| Base64.BtoaString | megadesktop/src/MEGAUpdater/UpdateTask.cpp:1249-1255 | the string overload returns the whole encoding |
| Signature.PadInPlace | megadesktop/src/MEGAUpdateGenerator/MEGAUpdateGenerator.cpp:138-154 | shifting in place from high to low yields zeros followed by the original bytes |
| Signature.ZerosAddNothing | megadesktop/src/MEGAUpdateGenerator/MEGAUpdateGenerator.cpp:471-486 | leading zeros do not change the big-endian integer |
| Signature.BigEndianInjective | megadesktop/src/MEGAUpdater/UpdateTask.cpp:1130-1137 | byte strings of one length with the same integer are equal |
| Signature.MatchesDigest | megadesktop/src/MEGAUpdater/UpdateTask.cpp:1101-1137 | the comparison succeeds if and only if the recovered integer is not zero and is the digest's big-endian value |
| Signature.CheckSignature | megadesktop/src/MEGAUpdater/UpdateTask.cpp:1094-1138 | a signature is accepted if and only if it decodes to at least 512 bytes whose first 512 recover a non-zero integer equal to the digest's |
| Signature.PaddedSignatureArrives | megadesktop/src/MEGAUpdateGenerator/MEGAUpdateGenerator.cpp:443-453 | a padded signature decodes to the 512 bytes the checker wants, with the integer it stood for |
| Signature.SignatureTextFitsALine | megadesktop/src/MEGAUpdateGenerator/MEGAUpdateGenerator.cpp:488-494 | a signature's text has 683 characters, none of them a newline or NUL |
| Signature.UnpaddedIsRejected | megadesktop/src/MEGAUpdater/UpdateTask.cpp:1096-1099 | a text passes the length test if and only if it encodes at least 512 bytes, so an unpadded short signature is always rejected |
| RecursiveDelete.Remover.EmptyDirLocal | megadesktop/src/MEGAUpdater/UpdateTask.cpp:965-1035 | it terminates, restores the path buffer, and leaves below the folder exactly the entries that cannot go and their ancestors |
| RecursiveDelete.Remover.EmptyPass | megadesktop/src/MEGAUpdater/UpdateTask.cpp:996-1023 | one pass keeps all that must stay; a pass that removes something shrinks the tree; a pass that removes nothing leaves exactly the residue |
| RecursiveDelete.Remover.DeleteEntry | megadesktop/src/MEGAUpdater/UpdateTask.cpp:1004-1021 | after one entry the buffer is restored and nothing that could go is left at or below it; links are unlinked, never followed |
| RecursiveDelete.Remover.DeleteFolder | megadesktop/src/MEGAUpdater/UpdateTask.cpp:1010-1014 | a subfolder on the device is emptied and removed unless something below it must stay |
| RecursiveDelete.Remover.RemoveRecursively | megadesktop/src/MEGAUpdater/UpdateTask.cpp:753-769 | the folder goes if and only if it is deletable and nothing below it must stay |
| RecursiveDelete.ResidueIsFinal | megadesktop/src/MEGAUpdater/UpdateTask.cpp:994-1031 | deleting again changes nothing |
| RecursiveDelete.ResidueExactly | megadesktop/src/MEGAUpdater/UpdateTask.cpp:965-1035 | an entry stays if and only if it or something below it is undeletable, on another device, or below a folder that cannot be read |
| RecursiveDelete.FreeTreeIsEmptied | megadesktop/src/MEGAUpdater/UpdateTask.cpp:963-1035 | where nothing is undeletable, unreadable or on another device, nothing is left |
| AsyncHandler.StepKeepsInv | megadesktop/src/MEGASync/control/AsyncHandler.h:33-110 | every step of every thread keeps the invariant: who holds the mutex, where every item is, and who still owes a notification |
| AsyncHandler.NoLostWakeUp | megadesktop/src/MEGASync/control/AsyncHandler.h:33-96 | in every interleaving, a worker blocked with items queued or the flag lowered is owed a notification by some thread |
| AsyncHandler.HandledInOrder | megadesktop/src/MEGASync/control/AsyncHandler.h:37-42 | in every run, handled, in-hand and queued items are, in push order, all items pushed except those a stop cleared; none is handled twice; which items are pushed is `TriggeredIsPushed` |
| AsyncHandler.TriggeredIsPushed | megadesktop/src/MEGASync/control/AsyncHandler.h:33-43 | in every run, for every item, the times it was pushed and the times a caller past the flag test still carries it are together the times it was triggered while the flag was up |
| AsyncHandler.StepDrops | megadesktop/src/MEGASync/control/AsyncHandler.h:66-72 | only a stop clears items, and it clears exactly those in the queue |
| AsyncHandler.FewHandledAfterStop | megadesktop/src/MEGASync/control/AsyncHandler.h:66-110 | once the flag is lowered, the worker handles at most the item in its hand and one for each producer already past the flag test |
| AsyncHandler.RunsAreShort | megadesktop/src/MEGASync/control/AsyncHandler.h:33-110 | without new calls every interleaving ends within a bound computed from the state; once the flag is down even with spurious wake-ups |
| AsyncHandler.RestMeansDone | megadesktop/src/MEGASync/control/AsyncHandler.h:33-110 | when no thread can move, every call has returned and either the worker waits with every pushed item handled or cleared, or the flag is down and the worker has exited: nobody deadlocks |
| AsyncHandler.TriggeredIsHandled | megadesktop/src/MEGASync/control/AsyncHandler.h:33-64 | in every run without a stop, once the threads come to rest, everything triggered has been pushed and handled, each once, in push order |
| AsyncHandler.TriggeredIsAccountedFor | megadesktop/src/MEGASync/control/AsyncHandler.h:33-110 | in every run, once the threads come to rest, everything triggered while the flag was up was pushed, and all of it was handled, is still queued behind a lowered flag, or was cleared by a stop |
| AsyncHandler.StopStops | megadesktop/src/MEGASync/control/AsyncHandler.h:66-84 | after a stop the threads come to rest only with the flag down and the worker gone |
| TransferQuota.UpdateIsIdempotent | megadesktop/src/MEGASync/TransferQuota.cpp:48-106 | updating twice at the same instant is updating once |
| TransferQuota.OverQuotaOnlyEndsInUpdates | megadesktop/src/MEGASync/TransferQuota.cpp:48-106 | after an update the state is OVERQUOTA if and only if it was before and, when logged in, the wait is not over and usage, where limited, is at the limit |
| TransferQuota.SettlesAtLevel | megadesktop/src/MEGASync/TransferQuota.cpp:67-89 | with a limited quota an update ends at the level of the figures, or stays OVERQUOTA at full usage |
| TransferQuota.StateAfterUpdate | megadesktop/src/MEGASync/TransferQuota.cpp:48-106 | the state after an update in terms of the figures: OK below 90 per cent, WARNING from there to the limit, and at the limit FULL unless a wait set by the servers is still running; without a limit only the end of a wait changes it; without a login nothing does |
| TransferQuota.GatesOpenExactly | megadesktop/src/MEGASync/TransferQuota.cpp:108-183 | the pauses in milliseconds: seven days for the dialog, 36 hours for all else |
| TransferQuota.RoundExactly | megadesktop/src/MEGASync/TransferQuota.cpp:108-206 | a round of alerts shows exactly those whose gates are open, and stamps only dialog and notifications |
| TransferQuota.AppendKeepsHistory | megadesktop/src/MEGASync/TransferQuota.cpp:108-183 | an event the gates let through keeps the history good: alerts in the state they are about, pauses respected, waits ended only once |
| TransferQuota.WaitsDoNotOutnumberEpisodes | megadesktop/src/MEGASync/TransferQuota.cpp:55-61 | `waitTimeIsOver` is emitted at most once for each time OVERQUOTA was announced |
| TransferQuota.TransferQuota.constructor | megadesktop/src/MEGASync/TransferQuota.cpp:10-20 | a new object has a good history and the state an update from OK gives |
| TransferQuota.TransferQuota.UpdateQuotaState | megadesktop/src/MEGASync/TransferQuota.cpp:48-106 | the mutual recursion ends; state and wait are those of the update at a clock reading within the call; to the history it adds exactly the end of a wait, the change of state, and, on moving into WARNING with alerts allowed, one round of warnings |
| TransferQuota.TransferQuota.IsOverQuota | megadesktop/src/MEGASync/TransferQuota.cpp:30-34 | the answer is about the updated state, and the history is that of the update |
| TransferQuota.TransferQuota.IsQuotaWarning | megadesktop/src/MEGASync/TransferQuota.cpp:36-40 | the answer is about the updated state, and the history is that of the update |
| TransferQuota.TransferQuota.CheckExecuteAlerts | megadesktop/src/MEGASync/TransferQuota.cpp:185-206 | silent unless logged in with alerts allowed; then exactly the history of an update followed by one round of the alerts of the state found, the update's own round of warnings included |
| TransferQuota.TransferQuota.CheckExecuteDialog | megadesktop/src/MEGASync/TransferQuota.cpp:108-129 | shows the dialog and stamps it if and only if seven days have passed since the last |
| TransferQuota.TransferQuota.CheckExecuteNotification | megadesktop/src/MEGASync/TransferQuota.cpp:131-141 | notifies and stamps it if and only if 36 hours have passed since the last |
| TransferQuota.TransferQuota.CheckExecuteUiMessage | megadesktop/src/MEGASync/TransferQuota.cpp:143-156 | asks for the message if and only if 36 hours have passed since it was dismissed |
| TransferQuota.TransferQuota.CheckExecuteWarningNotification | megadesktop/src/MEGASync/TransferQuota.cpp:158-168 | notifies and stamps it if and only if 36 hours have passed since the last |
| TransferQuota.TransferQuota.CheckExecuteWarningUiMessage | megadesktop/src/MEGASync/TransferQuota.cpp:170-183 | asks for the message if and only if 36 hours have passed since it was dismissed |
| TransferQuota.TransferQuota.SetOverQuota | megadesktop/src/MEGASync/TransferQuota.cpp:22-28 | OVERQUOTA is announced once and the wait set; then exactly what showing alerts does, with the update inside it, and nothing more without login or alerts |
| TransferQuota.TransferQuota.CheckQuotaAndAlerts | megadesktop/src/MEGASync/TransferQuota.cpp:208-212 | ends in the updated state, never announces OVERQUOTA, and adds exactly the history of one update and, with alerts allowed, one round of the alerts of its state |
| TransferQuota.TransferQuota.Reset | megadesktop/src/MEGASync/TransferQuota.cpp:274-280 | back to OK with no wait, keeping the history good |
| TransferQuota.TransferQuota.OnTransferOverquotaVisibilityChange | megadesktop/src/MEGASync/TransferQuota.cpp:299-307 | a dismissal, and only that, is stamped |
| TransferQuota.TransferQuota.OnAlmostTransferOverquotaVisibilityChange | megadesktop/src/MEGASync/TransferQuota.cpp:309-317 | a dismissal, and only that, is stamped |
| NetworkChange.CheckIpAddress | megadesktop/src/MEGASync/MegaApplication.cpp:2719-2743 | reports an IPv4 or IPv6 address that no old entry has as text |
| NetworkChange.CheckNetworkAddresses | megadesktop/src/MEGASync/MegaApplication.cpp:2700-2717 | reports a different number of addresses or some new one |
| NetworkChange.CheckNetworkInterface | megadesktop/src/MEGASync/MegaApplication.cpp:2680-2698 | reports an unknown name or, for the first interface of that name, differing addresses |
| NetworkChange.CheckNetworkInterfaces | megadesktop/src/MEGASync/MegaApplication.cpp:2670-2678 | reports if and only if some interface of the new list differs |
| NetworkChange.ChangeMissedExactly | megadesktop/src/MEGASync/MegaApplication.cpp:2700-2743 | the test of one interface misses a change of its address set if and only if the lists are equally long, the new addresses are all old ones, and repeats differ in number |
| NetworkChange.FalseAlarmExactly | megadesktop/src/MEGASync/MegaApplication.cpp:2700-2743 | it reports a change where the set is the same if and only if repeats differ in number |
| NetworkChange.AddressesDifferExactly | megadesktop/src/MEGASync/MegaApplication.cpp:2700-2717 | with as many repeats as before, none in particular, the length test and one-way lookups decide equality of the address sets |
| NetworkChange.NetworkChangeMissedExactly | megadesktop/src/MEGASync/MegaApplication.cpp:1932-1940 | for distinct interface names the whole test misses a change of the map from names to address sets if and only if there are as many interfaces, each equally long with no new address, and some repeats differ in number |
| NetworkChange.NetworkFalseAlarmExactly | megadesktop/src/MEGASync/MegaApplication.cpp:1932-1940 | where the map is unchanged a change is reported if and only if repeats differ in number on some interface |
| NetworkChange.ChangeDetectedExactly | megadesktop/src/MEGASync/MegaApplication.cpp:1932-1940 | so if no interface changes its number of repeats, the whole test reports a change if and only if the maps differ |
| NetworkChange.DistinctIsSteady | megadesktop/src/MEGASync/MegaApplication.cpp:1932-1940 | lists without repeated addresses qualify |
| NetworkChange.RepeatedAddressHidesChange | megadesktop/src/MEGASync/MegaApplication.cpp:2700-2717 | an input of the missed kind: a repeated address in place of another one |
| NetworkChange.MegaApplication.CheckNetwork | megadesktop/src/MEGASync/MegaApplication.cpp:1908-1943 | for any lists: connections are retried exactly when connectivity returns, the test of a known network reports a change, or the idle limit is passed, and list and time are taken over then; for lists the test decides, it reports exactly a changed map and the remembered list is equivalent to the one just seen |
| NetworkChange.MegaApplication.ReconnectIfNecessary | megadesktop/src/MEGASync/MegaApplication.cpp:2870-2888 | retries, and takes over list and time, if and only if told to or idle for too long |
| AccountDetails.RequestsNeverOverlap | megadesktop/src/MEGASync/control/AccountDetailsManager.cpp:111-190 | in every run, whatever the throttle decides, outstanding requests are pairwise disjoint, the in-flight bits are their union, and storage reasons wait only while storage is queued and not in flight |
| AccountDetails.StepForgetsOnlyAnswers | megadesktop/src/MEGASync/control/AccountDetailsManager.cpp:111-190 | one operation forgets only what a reply answers; a demand is always remembered |
| AccountDetails.DemandStaysAwaited | megadesktop/src/MEGASync/control/AccountDetailsManager.cpp:111-190 | a demanded detail stays in flight or queued through any run until a reply answers it |
| AccountDetails.StaleReplyHarmlessExactly | megadesktop/src/MEGASync/control/AccountDetailsManager.cpp:185-190 | a reply to a forgotten request keeps the bookkeeping right if and only if nothing it names is in flight |
| AccountDetails.UnthrottledNeverQueues | megadesktop/src/MEGASync/control/AccountDetailsManager.cpp:139-160 | with the throttle off nothing is ever queued: all that is awaited is asked for |
| AccountDetails.ReasonsTravel | megadesktop/src/MEGASync/control/AccountDetailsManager.cpp:111-161 | what a demand does with its details and its reason: a request for what is not in flight carries all reasons gathered if it asks for storage, and otherwise they wait |
| AccountDetails.TickEmptiesQueue | megadesktop/src/MEGASync/control/AccountDetailsManager.cpp:163-183 | a periodic update that may ask sends all that was queued; one that may not keeps it queued |
| AccountDetails.LastRequestIsOldest | megadesktop/src/MEGASync/control/AccountDetailsManager.cpp:395-415 | the time the throttle looks at is that of the oldest of the last requests for the details demanded |
| AccountDetails.AccountDetailsManager.constructor | megadesktop/src/MEGASync/control/AccountDetailsManager.cpp:60-64 | a new manager awaits nothing and has its throttle off |
| AccountDetails.AccountDetailsManager.Reset | megadesktop/src/MEGASync/control/AccountDetailsManager.cpp:71-77 | forgets everything but the frozen static, so the throttle stays off |
| AccountDetails.AccountDetailsManager.UpdateUserStats | megadesktop/src/MEGASync/control/AccountDetailsManager.cpp:111-161 | the demand is served or queued as the frozen static decides, with stamps for exactly the details sent; from a fresh start it is always served |
| AccountDetails.AccountDetailsManager.PeriodicUpdate | megadesktop/src/MEGASync/control/AccountDetailsManager.cpp:163-183 | the queue is emptied and demanded again; while finishing it is emptied only |
| AccountDetails.AccountDetailsManager.HandleAccountDetailsReply | megadesktop/src/MEGASync/control/AccountDetailsManager.cpp:185-190 | a reply keeps the bookkeeping sound: exactly its own details stop being in flight, every other outstanding request's stay, and what is queued is untouched |
| AccountDetails.AccountDetailsManager.LowerInflight | megadesktop/src/MEGASync/control/AccountDetailsManager.cpp:12-28 | a detail stays in flight if and only if it was and is not named; nothing else changes |
| ScanStage.StepKeepsInv | megadesktop/src/MEGASync/ScanStageController.cpp:37-167 | every event keeps: actions are enabled exactly when not scanning and not in the minimum time, and the minimum time has a timer running |
| ScanStage.LockAgreesWithFlags | megadesktop/src/MEGASync/ScanStageController.cpp:37-167 | so in every reachable state |
| ScanStage.StoppedScanUnlocks | megadesktop/src/MEGASync/ScanStageController.cpp:81-92 | once a scan has stopped and none starts, actions are enabled from the first minimum-time expiry on, and until then such a timer is running |
| ScanStage.LockedForMinimumTime | megadesktop/src/MEGASync/ScanStageController.cpp:71-92 | as long as no minimum time ends, actions stay locked, whether the scan has been stopped or not |
| ScanStage.ScanLocks | megadesktop/src/MEGASync/ScanStageController.cpp:71-92 | so a scan stopped before the minimum time has elapsed leaves the actions locked until it has |
| ScanStage.ScanStageController.StartDelayedScanStage | megadesktop/src/MEGASync/ScanStageController.cpp:37-43 | only the scan timer is running afterwards that was not before; flags and lock are untouched |
| ScanStage.ScanStageController.StopDelayedScanStage | megadesktop/src/MEGASync/ScanStageController.cpp:45-56 | a scan not begun is called off without touching flags or lock; one under way is stopped |
| ScanStage.ScanStageController.StartScanStage | megadesktop/src/MEGASync/ScanStageController.cpp:71-79 | both flags go up, actions are locked, and one more minimum-time timer runs |
| ScanStage.ScanStageController.StopScanStage | megadesktop/src/MEGASync/ScanStageController.cpp:81-92 | unlocks unless still in the minimum time |
| ScanStage.ScanStageController.SetUiInNormalStage | megadesktop/src/MEGASync/ScanStageController.cpp:109-127 | enables actions and stops the cancel timer, and nothing else |
| ScanStage.ScanStageController.SetDelayedCancellingStage | megadesktop/src/MEGASync/ScanStageController.cpp:142-145 | starts the cancel timer, and nothing else |
| ScanStage.ScanStageController.OnMinimumDisplayTimeElapsed | megadesktop/src/MEGASync/ScanStageController.cpp:160-167 | ends the minimum time and unlocks unless scanning |
| ScaleFactor.RoundIsNearest | megadesktop/src/MEGASync/ScaleFactorManager.cpp:287-288 | `qRound` is the nearest integer, halves upwards, also for negative numbers |
| ScaleFactor.AdjustScaleValueToSuitableIncrement | megadesktop/src/MEGASync/ScaleFactorManager.cpp:281-296 | above a maximum of 1 the result is the smaller of the nearest quarter and the largest quarter within the maximum, and the loop runs at most once |
| ScaleFactor.QuarterFacts | megadesktop/src/MEGASync/ScaleFactorManager.cpp:281-296 | rounding overshoots the maximum by less than one step, so one step down lands on the largest quarter within it |
| ScaleFactor.AdjustedIsMonotone | megadesktop/src/MEGASync/ScaleFactorManager.cpp:281-296 | a larger request on a larger screen never gives a smaller factor, both maxima on the same side of 1 |
| ScaleFactor.LinuxFactorIsSuitable | megadesktop/src/MEGASync/ScaleFactorManager.cpp:298-368 | on Linux without automatic scaling every factor is a quarter between 1 and 3, not above the larger of 1 and the maximum |
| ScaleFactor.WantedOnLinux | megadesktop/src/MEGASync/ScaleFactorManager.cpp:342-368 | the factor asked for on Linux: 1 where Qt scales; else 96 dots per inch for 1, up to 3; and where they are no more, 2560 by 1440 pixels for 1, by the tighter side, from 1 to 3 |
| ScaleFactor.MaxScaleExactly | megadesktop/src/MEGASync/ScaleFactorManager.cpp:298-309 | the maximum leaves room for 810 pixels of height |
| ScaleFactor.FactorOne | megadesktop/src/MEGASync/ScaleFactorManager.cpp:311-340 | a single screen, and on Linux any that Qt scales, keeps factor 1 unless it is too low for it and Qt scales it |
| ScaleFactor.MultiScreenFactor | megadesktop/src/MEGASync/ScaleFactorManager.cpp:311-340 | elsewhere one of several screens gets 1 where Qt does not scale it, its maximum where that is at most 1, and otherwise the quarter nearest to its ratio or the largest it has room for |
| ScaleFactor.LinuxFactor | megadesktop/src/MEGASync/ScaleFactorManager.cpp:311-340 | on Linux without automatic scaling a screen gets 1 where its maximum is at most 1, and otherwise the quarter nearest to the factor asked for or the largest it has room for |
| ScaleFactor.KeptFactor | megadesktop/src/MEGASync/ScaleFactorManager.cpp:332-336 | a factor needs no rescaling if and only if the screen has it already |
| ScaleFactor.ScaleFactorManager.ComputeScales | megadesktop/src/MEGASync/ScaleFactorManager.cpp:311-340 | appends one factor per screen, suitable on Linux, and reports if and only if some screen needs rescaling |
| DeviceName.SuffixesDiffer | megadesktop/src/MEGASync/UserAttributesRequests/DeviceName.cpp:155-157 | names with different counters are different |
| DeviceName.TakenRunIsShort | megadesktop/src/MEGASync/UserAttributesRequests/DeviceName.cpp:152-159 | no more candidates can be found taken than there are taken names, plus one if the first repeats |
| DeviceName.DeviceName.SetDeviceName | megadesktop/src/MEGASync/UserAttributesRequests/DeviceName.cpp:96-108 | a new name is taken over and asked for; the present one changes nothing |
| DeviceName.DeviceName.ProcessSetDeviceNameCallback | megadesktop/src/MEGASync/UserAttributesRequests/DeviceName.cpp:136-161 | success announces the name and resets the counter; a taken name moves on to the next counter and asks again; other errors change nothing |
| DeviceName.DeviceName.Settle | megadesktop/src/MEGASync/UserAttributesRequests/DeviceName.cpp:136-170 | against any fixed set of taken names the exchange ends with the first free candidate announced, having asked for exactly the candidates up to it, at most one more than there are taken names |
| DeviceName.DeviceName.ChooseName | megadesktop/src/MEGASync/UserAttributesRequests/DeviceName.cpp:96-161 | a name the user chose settles on the first free of the name, `name - 1`, `name - 2` and so on, within one request more than there are taken names |

## Left out

- Cryptography: SHA, RSA and key parsing. A signature check is an arbitrary function, a recovered integer an arbitrary number.
- Downloads, file handles, permissions, access-control lists and symbolic-link creation: only their success and what they leave at the destination.
- FileSystem.Rename: ENOENT is taken to mean that the source is missing, because the target's folder was made just before; directories and folder creation are failure flags, not entries of the map; two spellings of one path are two paths.
- Updater.UpdateTask.CheckForUpdates: the early return for an empty application or data folder, the local copy of the manifest, and environment variables that override URL and key are not modelled; one check per `UpdateTask` object, as in the updater's `main`.
- Outcomes.StoppedDownloadLeaves: targets are taken to be distinct; with a repeated one, what is staged under its path depends on both downloads.
- Runs.BackupSurvivesExactly: the case of a replacing rename over an undeletable backup of a pending target, where it depends on which step fails.
- NetworkChange.NetworkChangeMissedExactly: interface names are taken to be distinct, as the system reports them, and the new addresses to be IPv4 or IPv6, the only ones looked up.
- Updater.Cleaned: which files cannot be deleted is a parameter; the version file is a number that can or cannot be written, its text format is not modelled.
- Decimal.ReadBackAsInt: `atoi` beyond `int` is taken as the common C libraries do it, `strtol` cut to 32 bits; the standard leaves it undefined.
- Generator.Run: the key generation mode, a public key whose hash cannot be computed (exit code 8), and everything printed to the error stream.
- RecursiveDelete.Remover.EmptyDirLocal: the POSIX version only. The path buffer is a list of components, the directory entry type is taken to be reported faithfully, what is undeletable is fixed during the call, and no other process changes the tree.
- AsyncHandler.NoLostWakeUp: atomics are sequentially consistent and every queue operation is one step; an action under way is taken to return, and restarting after a stop is not modelled.
- TransferQuota.TransferQuota.UpdateQuotaState: the percentage is exact integer arithmetic, where the source goes through floating point; preferences and permission to alert are fixed during a call and change between calls; statistics events and dialog contents are not modelled.
- NetworkChange.MegaApplication.CheckNetwork: how active interfaces are selected (their flags and local addresses) is an input, and so are the two clock readings.
- AccountDetails.AccountDetailsManager.UpdateUserStats: reasons are a set of numbers, not bits of an integer; the content of a reply and its error are not modelled.
- ScanStage.LockAgreesWithFlags: calls into the transfer manager and the information dialog.
- ScaleFactor.AdjustScaleValueToSuitableIncrement: real arithmetic, no floating-point rounding; the saved configuration and environment variables.
- DeviceName.DeviceName.Settle: the servers' answer depends only on the name asked for; the counter's integer width; the getter's exchange that precedes it.
- Shell extensions, registry handling, menus, notifications, proxy settings, crash handling, avatars and the other attribute requests: user interface and plumbing, or easy members.
