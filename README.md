# Solution Cleanup — a Dafny model

This project models the cleanup engine of the Solution Cleanup and Delete Output Folders Visual
Studio extensions. The engine runs over an abstract disk.

- **Disk.** The disk is a map from absolute path to `File` or `Dir`, closed under parent. It is
  held by the class `FileSystem.Volume`. The System.IO calls the commands make are methods of
  `Volume`, each specified by its effect on the map: `GetDirectories`, `GetFiles`,
  `FileInfo.Delete`, `DirectoryInfo.Delete(bool)` and `Directory.Exists`.
- **Entries that refuse deletion.** A file in use or a read-only entry is a member of the fixed
  set `Volume.locked`. Deleting it fails with an I/O error.
- **Source control.** The host's `IsItemUnderSCC` query is a parameter `underScc: string -> bool`.
- **My Documents.** The My Documents folder is a parameter path `myDocs`.
- **Projects.** A project is its project-file path and its loaded flag.

The model has these parts:

- **Options** — the `General` rule set: seven flags, their initial values and their declared
  defaults.
- **DirectoryInfoComparer** — directory identity by `FullName`, and a model of LINQ `Distinct`
  with that comparer.
- **SolutionCleanup** — discovery by name match at any depth under each project directory, the
  IIS Express folders, and `ExecuteAsync`. `ExecuteAsync` either reports that there are no
  projects, or runs two passes of discovery and delete and then the native clean.
- **Cleanup** — discovery in the `CleanupCommand` base class: fixed `root\<name>` folders, then an
  existence filter.
- **SafeDelete** — the two-phase delete that both commands share: `DeleteFilesAsync` and
  `DeleteFolderRecursive`.
  - Phase A sweeps every file under every candidate. It skips `.refresh` files, then files
    under source control, and otherwise attempts the delete.
  - Phase B prunes folders bottom-up.

  The methods are proved against set-based specification functions. `Sweep` and `Prune` take
  the candidate folders as a set. `Cleaned` is `Prune` after `Sweep`. So the result does not
  depend on the order of the folders or of the enumerations.
- **DeleteOutputFolders** — the older command. For each project it lists the `bin` and `obj`
  directories at any depth. It then deletes each one recursively and counts the attempts.

The model keeps these facts about the code:

- Discovery deduplicates only within one project's subtree matches. The IIS Express folders are added
  once per project, and a directory shared by two projects is listed once for each.
  `SolutionCleanup.ExpectedCount` and `SolutionCleanup.SharedDirectoryListedTwice` state this.
  The deletion result is the same, because `SafeDelete.Cleaned` depends only on the set of
  candidates.
- A project directory that does not exist is not skipped. Enumerating it throws, and the
  exception leaves the command: the result is `Aborted` or `completed == false`.
- The native clean runs once, after both passes.
- The `.refresh` test is made on `FullName`, not on the file name. Since the suffix holds no
  separator, the two tests agree (`Paths.FullNameEndsWithIffNameEndsWith`).

## Model

| member | source | states |
|---|---|---|
| Options.Initial | SolutionCleanup/Options/General.cs:20-61 | RunDefaultCleanup and DeleteBinFolder start true. Packages, TestResults, .vs and both IIS Express flags start false. |
| Options.InitialAgreesWithDeclaredDefaults | SolutionCleanup/Options/General.cs:20-61 | Every flag's initial value equals the value of its DefaultValue attribute. |
| Workspace.ProjectDirectory | SolutionCleanup/Commands/SolutionCleanupCommand.cs:146 | A project has a directory exactly when its path is non-empty. The path is then an entry directly inside that directory. |
| Workspace.LoadedProjects | SolutionCleanup/Commands/SolutionCleanupCommand.cs:82 | A project is kept exactly when it is in the list, is loaded and has a non-empty path. The result is never longer than the input. |
| Paths.FullName | SolutionCleanup/Common/DirectoryInfoComparer.cs:12 | The full name has at least one character per segment, and it is empty only for the root. |
| Paths.FullNameAppend | SolutionCleanup/Commands/SolutionCleanupCommand.cs:268 | The full name of an entry is its parent's full name, a separator and its name. |
| Paths.NameOf | SolutionCleanup/Commands/SolutionCleanupCommand.cs:150 | DirectoryInfo.Name is the last segment: the parent followed by the name is the path. |
| Paths.Parent | SolutionCleanup/Commands/SolutionCleanupCommand.cs:146 | Path.GetDirectoryName drops the last segment: the result is one segment shorter and the path lies strictly below it. |
| Paths.FullNameInjective | SolutionCleanup/Common/DirectoryInfoComparer.cs:12 | Valid paths with the same FullName string are the same path. |
| Paths.FullNameEndsWithIffNameEndsWith | SolutionCleanup/Commands/SolutionCleanupCommand.cs:195 | For a suffix without separators, the suffix test on a file's FullName agrees with the test on its Name. |
| FileSystem.Volume.DirectoryExists | SolutionCleanup/Commands/SolutionCleanupCommand.cs:269 | True exactly when the path is a directory of the disk. |
| FileSystem.Volume.GetDirectories | SolutionCleanup/Commands/SolutionCleanupCommand.cs:148 | None exactly when the directory is missing, because the call throws. Otherwise the result lists each directory strictly below (AllDirectories) or directly inside (TopDirectoryOnly) once, in some order. |
| FileSystem.Volume.GetFiles | SolutionCleanup/Commands/SolutionCleanupCommand.cs:187 | Like GetDirectories, for files. |
| FileSystem.Volume.DeleteFile | SolutionCleanup/Commands/SolutionCleanupCommand.cs:207 | Succeeds unless the path is a directory or an entry that refuses deletion. On success the file is gone and nothing else changes; on failure the disk is unchanged. |
| FileSystem.Volume.DeleteDirectory | DeleteOutputFolders/Commands/DeleteOutputFoldersCommand.cs:43 | Non-recursive: only an existing, empty directory that does not refuse deletion goes. Recursive: every entry whose subtree holds nothing that refuses deletion goes, and the call succeeds only when nothing refused. A missing directory fails and changes nothing. The disk stays closed under parent. |
| FileSystem.RecursiveDeletionDownward | DeleteOutputFolders/Commands/DeleteOutputFoldersCommand.cs:43 | A recursive delete that removes an entry also removes everything under that entry. |
| DirectoryInfoComparer.Equals | SolutionCleanup/Common/DirectoryInfoComparer.cs:12 | Two nulls are equal. A null and a directory are unequal. |
| DirectoryInfoComparer.EqualsIffSamePath | SolutionCleanup/Common/DirectoryInfoComparer.cs:12 | On directories with valid paths, Equals holds exactly when the paths are the same, in both directions. |
| DirectoryInfoComparer.EqualsIsEquivalence | SolutionCleanup/Common/DirectoryInfoComparer.cs:12 | Equals is reflexive, symmetric and transitive, nulls included. |
| DirectoryInfoComparer.HashCode | SolutionCleanup/Common/DirectoryInfoComparer.cs:14 | The hash is the string hash of the full name of every directory that Equals this one. |
| DirectoryInfoComparer.HashCodeAgreesWithEquals | SolutionCleanup/Common/DirectoryInfoComparer.cs:12-14 | Equal directories get equal hash codes, for every string hash function. |
| DirectoryInfoComparer.Distinct | SolutionCleanup/Commands/SolutionCleanupCommand.cs:153 | No two entries of the result have the same FullName. Every entry comes from the input. The result has the same set of FullName values as the input and is no longer than it. |
| DirectoryInfoComparer.DistinctOfDistinctive | SolutionCleanup/Commands/SolutionCleanupCommand.cs:153 | Distinct returns unchanged a sequence whose FullName values are already pairwise different. |
| DirectoryInfoComparer.DistinctiveOfDistinctPaths | SolutionCleanup/Commands/SolutionCleanupCommand.cs:148-153 | A directory listing of valid, pairwise different paths has pairwise different FullName values. |
| SafeDelete.OneTo | SolutionCleanup/Commands/SolutionCleanupCommand.cs:219 | The progress indices reported for n files are 1, 2, ..., n. |
| SafeDelete.Outcome | SolutionCleanup/Commands/SolutionCleanupCommand.cs:195-218 | The outcome is SkippedRefresh exactly when the full name ends in .refresh. It is SkippedSourceControl exactly for other files under source control, FailedIO exactly for the remaining files that refuse deletion, and Deleted for all others. |
| SafeDelete.SweepFile | SolutionCleanup/Commands/SolutionCleanupCommand.cs:195-218 | A .refresh file is skipped first, then a file under source control is skipped, then the delete is attempted and fails exactly for an entry that refuses deletion. The file is gone exactly when the outcome is Deleted. |
| SafeDelete.SweepListed | SolutionCleanup/Commands/SolutionCleanupCommand.cs:193-220 | One step of the file loop: the next listed file gets its outcome, and afterwards exactly the swept files among those listed so far are gone. |
| SafeDelete.SweepFolder | SolutionCleanup/Commands/SolutionCleanupCommand.cs:187-220 | The file list is taken once. Each file gets its outcome and a progress report, and a failure does not stop the rest. The disk ends as the folder's sweep. A missing folder gives None and changes nothing. |
| SafeDelete.SweepNextFolder | SolutionCleanup/Commands/SolutionCleanupCommand.cs:185-221 | One step of the phase A folder loop: None exactly when the folder is missing, which changes nothing. Otherwise the disk is the sweep of every folder so far, and the report describes the sweep of the disk the folder saw. |
| SafeDelete.DeleteFiles | SolutionCleanup/Commands/SolutionCleanupCommand.cs:181-227 | DeleteFilesAsync; the base class's copy of it has the same body apart from messages. Phase A sweeps every folder before phase B prunes any. It completes exactly when every folder exists, and then the disk is Cleaned over the set of folders. Otherwise the exception stops it at the first missing folder, after sweeping only the folders before it. Each report describes the sweep of the disk that folder saw. |
| SafeDelete.DeleteFolderRecursive | SolutionCleanup/Commands/SolutionCleanupCommand.cs:229-259 | DeleteFolderRecursive; the base class's copy of it has the same body. Subfolders are processed first. The disk then ends as the prune of the folder: the directories at or under it whose whole subtree is directories, none of which refuses deletion. A missing folder is caught and changes nothing. |
| SafeDelete.EmptyAfterChildrenIffPrunable | SolutionCleanup/Commands/SolutionCleanupCommand.cs:238 | After its subfolders are pruned, a folder holds no file, holds no subfolder and accepts deletion exactly when its whole subtree was prunable. |
| SafeDelete.PruneDecompose | SolutionCleanup/Commands/SolutionCleanupCommand.cs:234-243 | Pruning a folder is pruning its subfolders, plus the folder itself when it is prunable. |
| SafeDelete.PruneOfMissingFolder | SolutionCleanup/Commands/SolutionCleanupCommand.cs:255-258 | Pruning a path that is not a directory removes nothing. |
| SafeDelete.SweepRemovesOnlyFiles | SolutionCleanup/Commands/SolutionCleanupCommand.cs:193-220 | The sweep removes only files, changes no remaining entry and keeps a well-formed disk well-formed. |
| SafeDelete.PruneKeepsFilesAndClosure | SolutionCleanup/Commands/SolutionCleanupCommand.cs:222-225 | The prune never removes a file, changes no remaining entry and keeps a well-formed disk well-formed. |
| SafeDelete.SweepCompose | SolutionCleanup/Commands/SolutionCleanupCommand.cs:185-221 | Sweeping one set of folders and then another is the same as sweeping both together, so the order of folders does not matter. |
| SafeDelete.PruneCompose | SolutionCleanup/Commands/SolutionCleanupCommand.cs:222-225 | Pruning one set of folders and then another is the same as pruning both together. |
| SafeDelete.SweepOfMissingFolder | SolutionCleanup/Commands/SolutionCleanupCommand.cs:187 | Sweeping a folder that does not exist removes nothing. |
| SafeDelete.KeptFileKeepsAncestors | SolutionCleanup/Commands/SolutionCleanupCommand.cs:229-243 | A file the sweep does not delete survives the whole delete, and so does every directory above it. |
| SafeDelete.RefreshFileNeverDeleted | SolutionCleanup/Commands/SolutionCleanupCommand.cs:195-198 | A file whose full name ends in .refresh survives both phases, whatever its source-control status. |
| SafeDelete.SourceControlledFileNeverDeleted | SolutionCleanup/Commands/SolutionCleanupCommand.cs:199-202 | A non-.refresh file under source control survives both phases. |
| SafeDelete.OutsideCandidatesUnchanged | SolutionCleanup/Commands/SolutionCleanupCommand.cs:185-225 | An entry at or under no candidate is left exactly as it was. |
| SafeDelete.RemovedEntries | SolutionCleanup/Commands/SolutionCleanupCommand.cs:185-225 | A removed file lay strictly under a candidate and had outcome Deleted. A removed directory lay at or under a candidate, and everything under it was removed, none of it refusing deletion. |
| SafeDelete.FullyDeletableCandidateRemoved | SolutionCleanup/Commands/SolutionCleanupCommand.cs:181-227 | A candidate whose files all get outcome Deleted, and whose directories all accept deletion, is removed together with everything under it. |
| SafeDelete.Cleaned | SolutionCleanup/Commands/SolutionCleanupCommand.cs:181-227 | The complete delete only removes entries. It changes no remaining entry and keeps a well-formed disk well-formed. |
| SafeDelete.CleanedIdempotent | SolutionCleanup/Commands/SolutionCleanupCommand.cs:91-93 | Running the delete again over the same candidates, or a subset of them, changes nothing. |
| SolutionCleanup.SelectedNames | SolutionCleanup/Commands/SolutionCleanupCommand.cs:148-153 | A name passes the filter exactly when it is bin or obj with DeleteBinFolder, .vs with DeleteDotVsFolder, packages with DeletePackagesFolder, or TestResults with DeleteTestResultsFolder. Ordinal equality is used. |
| SolutionCleanup.InitialSelectsBinAndObj | SolutionCleanup/Commands/SolutionCleanupCommand.cs:150 | With the initial options, exactly bin and obj pass the filter. |
| SolutionCleanup.IisExpressLogsPath | SolutionCleanup/Commands/SolutionCleanupCommand.cs:268 | The path is the Logs entry of My Documents\IISExpress. |
| SolutionCleanup.IisExpressTraceLogFilesPath | SolutionCleanup/Commands/SolutionCleanupCommand.cs:278 | The path is the TraceLogFiles entry of My Documents\IISExpress. |
| SolutionCleanup.IisExpressFolders | SolutionCleanup/Commands/SolutionCleanupCommand.cs:266-280 | The two IIS Express folders are different. Their full names are the My Documents full name followed by \IISExpress\Logs and \IISExpress\TraceLogFiles. |
| SolutionCleanup.GetIisExpressLogsFolder | SolutionCleanup/Commands/SolutionCleanupCommand.cs:266-270 | Returns the Logs folder exactly when it exists as a directory, and null otherwise. |
| SolutionCleanup.GetIisExpressTraceLogFilesFolder | SolutionCleanup/Commands/SolutionCleanupCommand.cs:276-280 | Returns the TraceLogFiles folder exactly when it exists as a directory, and null otherwise. |
| SolutionCleanup.IisFolders | SolutionCleanup/Commands/SolutionCleanupCommand.cs:154-169 | A folder is added exactly when it is an IIS Express folder whose flag is set and which exists. No folder is added twice. |
| SolutionCleanup.IisPart | SolutionCleanup/Commands/SolutionCleanupCommand.cs:154-169 | The IIS Express additions of one project are IisFolders of the current disk. |
| SolutionCleanup.Matching | SolutionCleanup/Commands/SolutionCleanupCommand.cs:148-153 | The Where filter keeps exactly the listed folders whose name passes the filter. It keeps a repetition-free listing repetition-free. |
| SolutionCleanup.ProjectPart | SolutionCleanup/Commands/SolutionCleanupCommand.cs:146-169 | None exactly when the project has no path or its directory is missing. Otherwise the part lists each matching directory strictly below the project directory once, with pairwise different FullName values, followed by the IIS Express folders. |
| SolutionCleanup.NextPart | SolutionCleanup/Commands/SolutionCleanupCommand.cs:144-170 | One step of the project loop: None means some project cannot be enumerated. Otherwise the project's part is appended, and the listing so far is Expected of the projects so far. |
| SolutionCleanup.GetDeletables | SolutionCleanup/Commands/SolutionCleanupCommand.cs:140-172 | None exactly when some project directory cannot be enumerated. Otherwise the projects' parts come in project order, and the listing holds exactly the candidates (as a multiset, Expected), each an existing directory. |
| SolutionCleanup.ExpectedAreCandidates | SolutionCleanup/Commands/SolutionCleanupCommand.cs:144-170 | A folder is in the listing exactly when it is an existing directory with a selected name strictly below the directory of some project, or an added IIS Express folder. |
| SolutionCleanup.ExpectedCount | SolutionCleanup/Commands/SolutionCleanupCommand.cs:144-170 | A folder occurs once for each project whose subtree matches it. An IIS Express folder occurs once per project. |
| SolutionCleanup.SharedDirectoryListedTwice | SolutionCleanup/Commands/SolutionCleanupCommand.cs:144-153 | Two projects in the same directory list each of its matching folders at least twice. |
| SolutionCleanup.Pass | SolutionCleanup/Commands/SolutionCleanupCommand.cs:91-93 | One pass of discovery and delete only removes entries. It changes no remaining entry and keeps a well-formed disk well-formed. |
| SolutionCleanup.Execute | SolutionCleanup/Commands/SolutionCleanupCommand.cs:77-100 | With no loaded project that has a path, it reports NoProjects and deletes nothing. Otherwise it runs two passes, each discovering afresh on the disk the previous pass left, and then runs the native clean exactly when RunDefaultCleanup is set. A missing project directory aborts, and the disk is exactly what the passes before it left. |
| SolutionCleanup.SecondPassRemovesNothing | SolutionCleanup/Commands/SolutionCleanupCommand.cs:91-93 | If nothing recreates files between the passes, the second pass leaves the disk as the first pass left it. |
| Cleanup.FixedFoldersMembers | SolutionCleanup/Commands/CleanupCommand.cs:96-120 | A project contributes exactly root\bin and root\obj under DeleteBinFolder, root\.vs, root\packages and root\TestResults each under its own flag, and each IIS Express folder under its flag. |
| Cleanup.FixedFoldersShape | SolutionCleanup/Commands/CleanupCommand.cs:94-120 | There is no search: each contributed folder is directly inside the project directory or is an IIS Express folder. A project contributes one folder per set flag, and two for the bin flag. |
| Cleanup.ProjectFolders | SolutionCleanup/Commands/CleanupCommand.cs:94-120 | The Add calls of one project fail exactly when it has no directory and one of DeleteBinFolder, DeleteDotVsFolder, DeletePackagesFolder and DeleteTestResultsFolder is set, for Path.Combine rejects the null directory. Otherwise the project contributes one folder per set flag, and a project without a directory contributes only IIS Express folders. |
| Cleanup.FixedListing | SolutionCleanup/Commands/CleanupCommand.cs:92-121 | The project loop fails exactly when one of the four root-based flags is set and some project has no path. With only the IIS Express flags set, a project without a path still adds its IIS Express folders. |
| Cleanup.FixedListingLength | SolutionCleanup/Commands/CleanupCommand.cs:90-122 | There is no deduplication: the list before the filter has the number of projects times the per-project count of entries. |
| Cleanup.ExistingOnly | SolutionCleanup/Commands/CleanupCommand.cs:122 | The filter keeps exactly the listed folders that exist as directories. Each is kept as many times as it is listed, and the result is a subsequence of the list, so the order is kept. It never lengthens the list, and it keeps a list whose folders all exist unchanged. |
| Cleanup.AddFixedFolders | SolutionCleanup/Commands/CleanupCommand.cs:94-120 | The Add calls append the fixed folders of one project in the order bin, obj, .vs, packages, TestResults, IIS Logs, IIS TraceLogFiles. Without a project directory they fail exactly at the first root-based flag that is set. |
| Cleanup.GetDeletables | SolutionCleanup/Commands/CleanupCommand.cs:88-123 | None exactly when a root-based flag is set and some project has no path. Otherwise the result is the project-by-project fixed list filtered to existing directories, and every returned folder exists. |
| Cleanup.Pass | SolutionCleanup/Commands/CleanupCommand.cs:88-176 | The base class's discovery followed by DeleteFilesAsync only removes entries and changes no remaining entry. It keeps a well-formed disk well-formed, and a project without a path leaves the disk unchanged when a root-based flag is set. |
| Cleanup.PassKeepsProtectedFiles | SolutionCleanup/Commands/CleanupCommand.cs:143-168 | In the base class's discovery plus DeleteFilesAsync, a .refresh file survives whatever its source-control status, and so does a file under source control. |
| Cleanup.PassStaysInFixedFolders | SolutionCleanup/Commands/CleanupCommand.cs:131-176 | An entry under none of the fixed folders is left exactly as it was. When a root-based flag is set, a project without a path stops the pass before anything is deleted; with only the IIS Express flags set, the pass goes on. |
| Cleanup.PassRemovesOnlyEmptiedFolders | SolutionCleanup/Commands/CleanupCommand.cs:172-212 | A removed directory lies at or under an existing fixed folder. It went only after everything under it went, and nothing under it refused deletion. |
| DeleteOutputFolders.OutputMatching | DeleteOutputFolders/Commands/DeleteOutputFoldersCommand.cs:33-34 | The filter keeps exactly the listed directories named exactly bin or obj. It keeps a repetition-free listing repetition-free. |
| DeleteOutputFolders.OutputRemovalStep | DeleteOutputFolders/Commands/DeleteOutputFoldersCommand.cs:37-54 | Deleting one more candidate after the earlier ones removes the same as deleting them all together. This includes a candidate already removed with its parent, which is a no-op. |
| DeleteOutputFolders.Run | DeleteOutputFolders/Commands/DeleteOutputFoldersCommand.cs:29-55 | At most one attempt count per project, and one for every project when the command completes. |
| DeleteOutputFolders.RunAbortSticks | DeleteOutputFolders/Commands/DeleteOutputFoldersCommand.cs:29-32 | Once a project without a path or without its directory has thrown, the later projects change nothing. |
| DeleteOutputFolders.AttemptsCountCandidates | DeleteOutputFolders/Commands/DeleteOutputFoldersCommand.cs:42 | Each project's final idx is the number of bin and obj directories under its directory on the disk that the project saw. |
| DeleteOutputFolders.DeleteProjectOutputs | DeleteOutputFolders/Commands/DeleteOutputFoldersCommand.cs:31-54 | The candidate list is fixed first. Every candidate is attempted, and a failure does not stop the rest. The disk loses exactly the removable part of the candidates' subtrees, and idx ends at the number of candidates. |
| DeleteOutputFolders.Execute | DeleteOutputFolders/Commands/DeleteOutputFoldersCommand.cs:22-56 | Covers every project, loaded or not, in order. The final disk, the completion flag and the per-project idx values are those of Run. |
| DeleteOutputFolders.SuccessfulDeleteRemovesSubtree | DeleteOutputFolders/Commands/DeleteOutputFoldersCommand.cs:43 | After a successful Delete(true), nothing is left at or under the candidate. |
| DeleteOutputFolders.OutsideCandidatesUnchanged | DeleteOutputFolders/Commands/DeleteOutputFoldersCommand.cs:33-43 | An entry at or under no candidate is left exactly as it was. |
| DeleteOutputFolders.LockedEntrySurvives | DeleteOutputFolders/Commands/DeleteOutputFoldersCommand.cs:43-49 | An entry that refuses deletion survives, and so does every entry above it. |
| DeleteOutputFolders.OutputRemovalInside | DeleteOutputFolders/Commands/DeleteOutputFoldersCommand.cs:33-43 | Everything a project removes lies strictly below its directory, at or under an existing bin or obj directory, and does not refuse deletion. |

## Left out

- Host plumbing is not modelled: DTE, the output pane, the status bar text, thread switching and async/await. The code runs as sequential code, and progress is a recorded sequence of indices.
- RunDefaultClean runs the host's Build.CleanSolution command, which is foreign to this code. It is modelled only as the `ranDefaultClean` flag of the result.
- The close-solution subscription is left out. It is event wiring with `Task.Run`, and it reads a RunOnClose option that does not exist in the `General` record.
- The explicit conversion operator of `General` is a stub that throws, and the package registration only registers commands. Neither is modelled.
- The source-control query, `Environment.GetFolderPath` and `string.GetHashCode` are parameters whose behaviour is left open.
- `String.EndsWith(".refresh")` is culture-sensitive. It is modelled as a plain suffix test on characters.
- The InvariantCulture comparison of bin and obj in Delete Output Folders is modelled as ordinal equality.
- Exception types are not modelled. An I/O failure is a fixed set of paths that refuse deletion, and an exception that leaves a command is an Aborted or not-completed result.
- Access errors are not distinguished. In Delete Output Folders an `UnauthorizedAccessException` from `Delete(true)` is not an `IOException`, so it would escape the catch; the model treats every refusal as a caught I/O failure.
- Enumeration failures inside an existing directory are not modelled: a listing of an existing directory always succeeds. In the code, a GetDirectories or GetFiles call with AllDirectories that meets a subfolder it may not read throws outside any catch. At SolutionCleanup/Commands/SolutionCleanupCommand.cs:148 and :187 and at DeleteOutputFolders/Commands/DeleteOutputFoldersCommand.cs:33 that ends the command. In phase B the outer catch of DeleteFolderRecursive swallows it.
- Concurrent changes to the disk by other processes are not modelled. This covers builds, restores, and the tooling that recreates files between the two passes: the disk changes only through the commands' own calls.
- Cleanup.FixedListing: an empty `FullPath` string is not told apart from a missing one. The model reads the empty path `[]` as the null that `Path.GetDirectoryName` returns for a null path. For `""` that call throws at SolutionCleanup/Commands/CleanupCommand.cs:94 on .NET Framework even when only the IIS Express flags are set, and the model does not capture that.
- Paths are absolute sequences of names. Relative paths, case-insensitive file systems, and `FullPath` values ending in a separator are not modelled.
