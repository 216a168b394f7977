/**
 * The two-phase delete shared by SolutionCleanupCommand and CleanupCommand: DeleteFilesAsync
 * sweeps the files under every candidate folder (phase A), then DeleteFolderRecursive prunes the
 * folders that are left empty, children before parents (phase B).
 *
 * The specification functions take the candidates as a set: the result of either phase does not
 * depend on the order of the folders or of the directory enumerations.
 */
module SafeDelete {
  import opened Wrappers
  import opened Paths
  import opened FileSystem

  /** The suffix of the files that tooling recreates (NuGet's *.refresh references). */
  const Refresh: string := ".refresh"

  /** What happens to one file of the sweep. */
  datatype FileOutcome = Deleted | SkippedRefresh | SkippedSourceControl | FailedIO

  /** One folder's sweep: the file list taken once, one outcome per file, the progress reports shown. */
  datatype SweepReport = SweepReport(folder: Path, files: seq<Path>, outcomes: seq<FileOutcome>, progress: seq<nat>)

  /**
   * The outcome for an existing file: a .refresh file is skipped whatever its source-control
   * status, then a file under source control is skipped, otherwise the delete is attempted and
   * fails exactly when the file refuses deletion.
   */
  function Outcome(f: Path, underScc: string -> bool, locked: set<Path>): (r: FileOutcome)
    ensures r == SkippedRefresh <==> EndsWith(FullName(f), Refresh)
    ensures r == SkippedSourceControl <==> !EndsWith(FullName(f), Refresh) && underScc(FullName(f))
    ensures r == FailedIO <==> !EndsWith(FullName(f), Refresh) && !underScc(FullName(f)) && f in locked
    ensures r == Deleted <==> !EndsWith(FullName(f), Refresh) && !underScc(FullName(f)) && f !in locked
  {
    if EndsWith(FullName(f), Refresh) then SkippedRefresh
    else if underScc(FullName(f)) then SkippedSourceControl
    else if f in locked then FailedIO
    else Deleted
  }

  /** The progress indices 1, 2, ..., n. */
  function OneTo(n: nat): (r: seq<nat>)
    ensures |r| == n
    ensures forall k :: 0 <= k < n ==> r[k] == k + 1
  {
    if n == 0 then [] else OneTo(n - 1) + [n]
  }

  // ---------------------------------------------------------------- phase A: the file sweep

  /** The files phase A removes: those strictly under a candidate whose outcome is Deleted. */
  function SweptFiles(t: Tree, folders: set<Path>, underScc: string -> bool, locked: set<Path>): set<Path> {
    set f | f in t.Keys && t[f] == File && Outcome(f, underScc, locked) == Deleted &&
            exists c :: c in folders && Below(c, f)
  }

  function Sweep(t: Tree, folders: set<Path>, underScc: string -> bool, locked: set<Path>): Tree {
    t - SweptFiles(t, folders, underScc, locked)
  }

  /** The report of sweeping `folder` in tree t. */
  ghost predicate ReportsSweep(t: Tree, folder: Path, underScc: string -> bool, locked: set<Path>, r: SweepReport) {
    && r.folder == folder
    && Lists(r.files, FilesBelow(t, folder))
    && |r.outcomes| == |r.files|
    && (forall k :: 0 <= k < |r.files| ==> r.outcomes[k] == Outcome(r.files[k], underScc, locked))
    && r.progress == OneTo(|r.files|)
  }

  /** Sweeping removes files only. */
  lemma SweepRemovesOnlyFiles(t: Tree, folders: set<Path>, underScc: string -> bool, locked: set<Path>)
    ensures forall p :: p in Sweep(t, folders, underScc, locked) ==> p in t && Sweep(t, folders, underScc, locked)[p] == t[p]
    ensures forall p :: p in t && t[p] == Dir ==> p in Sweep(t, folders, underScc, locked)
    ensures WellFormed(t) ==> WellFormed(Sweep(t, folders, underScc, locked))
  {
  }

  /** Sweeping a, then b, is sweeping both. */
  lemma SweepCompose(t: Tree, a: set<Path>, b: set<Path>, underScc: string -> bool, locked: set<Path>)
    ensures Sweep(Sweep(t, a, underScc, locked), b, underScc, locked) == Sweep(t, a + b, underScc, locked)
  {
    var sa := SweptFiles(t, a, underScc, locked);
    var u := Sweep(t, a, underScc, locked);
    assert SweptFiles(u, b, underScc, locked) == SweptFiles(t, b, underScc, locked) - sa;
    assert SweptFiles(t, a + b, underScc, locked) == sa + SweptFiles(t, b, underScc, locked);
  }

  /** Nothing lies under a path that is not a directory of a closed tree. */
  lemma AncestorsAreDirs(t: Tree)
    requires Closed(t)
    ensures forall a, q :: q in t && Below(a, q) ==> IsDir(t, a)
  {
    forall a, q | q in t && Below(a, q) ensures IsDir(t, a) {
      AncestorIsDir(t, a, q);
    }
  }

  /** A sweep of a folder that does not exist removes nothing. */
  lemma SweepOfMissingFolder(t: Tree, folder: Path, underScc: string -> bool, locked: set<Path>)
    requires Closed(t) && !IsDir(t, folder)
    ensures Sweep(t, {folder}, underScc, locked) == t
  {
    AncestorsAreDirs(t);
    assert SweptFiles(t, {folder}, underScc, locked) == {};
  }

  // ---------------------------------------------------------------- phase B: the bottom-up prune

  /**
   * A directory that the prune removes: after its children are processed it holds no file and no
   * subfolder, which happens exactly when its whole subtree is directories none of which refuses
   * deletion.
   */
  predicate Prunable(t: Tree, locked: set<Path>, q: Path) {
    IsDir(t, q) && forall r :: r in t && Within(q, r) ==> t[r] == Dir && r !in locked
  }

  function PrunedDirs(t: Tree, locked: set<Path>, folders: set<Path>): set<Path> {
    set q | q in t.Keys && Prunable(t, locked, q) && exists c :: c in folders && Within(c, q)
  }

  function Prune(t: Tree, locked: set<Path>, folders: set<Path>): Tree {
    t - PrunedDirs(t, locked, folders)
  }

  /** The whole of DeleteFilesAsync when every folder exists: sweep everything, then prune everything. */
  function Cleaned(t: Tree, folders: set<Path>, underScc: string -> bool, locked: set<Path>): (r: Tree)
    ensures forall p :: p in r ==> p in t && r[p] == t[p]
    ensures WellFormed(t) ==> WellFormed(r)
  {
    SweepRemovesOnlyFiles(t, folders, underScc, locked);
    PruneKeepsFilesAndClosure(Sweep(t, folders, underScc, locked), locked, folders);
    Prune(Sweep(t, folders, underScc, locked), locked, folders)
  }

  /** Removing prunable directories leaves every other directory exactly as prunable as before. */
  lemma PrunableAfterRemoval(t: Tree, locked: set<Path>, gone: set<Path>)
    requires forall p :: p in gone ==> Prunable(t, locked, p)
    ensures forall q :: Prunable(t - gone, locked, q) <==> q !in gone && Prunable(t, locked, q)
  {
    forall q | Prunable(t - gone, locked, q) ensures Prunable(t, locked, q) {
      forall r | r in t && Within(q, r) ensures t[r] == Dir && r !in locked {
        assert r in gone ==> Prunable(t, locked, r);
      }
    }
  }

  /** Pruning a, then b, is pruning both. */
  lemma PruneCompose(t: Tree, locked: set<Path>, a: set<Path>, b: set<Path>)
    ensures Prune(Prune(t, locked, a), locked, b) == Prune(t, locked, a + b)
  {
    var pa := PrunedDirs(t, locked, a);
    PrunableAfterRemoval(t, locked, pa);
    assert PrunedDirs(t - pa, locked, b) == PrunedDirs(t, locked, b) - pa;
    assert PrunedDirs(t, locked, a + b) == pa + PrunedDirs(t, locked, b);
  }

  /** Pruning never removes a file, and removes whole subtrees, so a closed tree stays closed. */
  lemma PruneKeepsFilesAndClosure(t: Tree, locked: set<Path>, folders: set<Path>)
    ensures forall p :: p in Prune(t, locked, folders) ==> p in t && Prune(t, locked, folders)[p] == t[p]
    ensures forall p :: p in t && t[p] == File ==> p in Prune(t, locked, folders)
    ensures WellFormed(t) ==> WellFormed(Prune(t, locked, folders))
  {
    var u := Prune(t, locked, folders);
    var gone := PrunedDirs(t, locked, folders);
    forall p, q | p in gone && q in t && Within(p, q) ensures q in gone {
      forall r | r in t && Within(q, r) ensures t[r] == Dir && r !in locked {
        WithinTransitive(p, q, r);
      }
      var c :| c in folders && Within(c, p);
      WithinTransitive(c, p, q);
    }
    forall q | q in u && q != [] ensures IsDir(u, Parent(q)) || !Closed(t) {
      assert Within(Parent(q), q);
    }
  }

  /** The prune of a missing folder removes nothing. */
  lemma PruneOfMissingFolder(t: Tree, locked: set<Path>, folder: Path)
    requires Closed(t)
    ensures !IsDir(t, folder) ==> PrunedDirs(t, locked, {folder}) == {}
  {
    forall q | q in PrunedDirs(t, locked, {folder}) ensures IsDir(t, folder) {
      if q != folder {
        AncestorIsDir(t, folder, q);
      }
    }
  }

  /** The prune of a folder is the prune of its subfolders, plus the folder itself when it is prunable. */
  lemma PruneDecompose(t: Tree, locked: set<Path>, folder: Path)
    requires Closed(t) && IsDir(t, folder)
    ensures PrunedDirs(t, locked, {folder}) ==
      PrunedDirs(t, locked, ChildDirs(t, folder)) + (if Prunable(t, locked, folder) then {folder} else {})
  {
    AncestorsAreDirs(t);
    var lhs := PrunedDirs(t, locked, {folder});
    var kids := PrunedDirs(t, locked, ChildDirs(t, folder));
    forall q | q in lhs && q != folder ensures q in kids {
      BelowThroughChild(folder, q);
      var c := q[..|folder| + 1];
      assert c == q || Below(c, q);
      assert c in ChildDirs(t, folder);
    }
    forall q | q in kids ensures q in lhs {
      var c :| c in ChildDirs(t, folder) && Within(c, q);
      WithinTransitive(folder, c, q);
    }
  }

  /**
   * After its subfolders are pruned, a folder holds no file and no subfolder and does not refuse
   * deletion exactly when it is prunable.
   */
  lemma EmptyAfterChildrenIffPrunable(t: Tree, locked: set<Path>, folder: Path)
    requires Closed(t) && IsDir(t, folder)
    ensures var u := Prune(t, locked, ChildDirs(t, folder));
      (ChildDirs(u, folder) == {} && ChildFiles(u, folder) == {} && folder !in locked) <==> Prunable(t, locked, folder)
  {
    var u := Prune(t, locked, ChildDirs(t, folder));
    if ChildDirs(u, folder) == {} && ChildFiles(u, folder) == {} && folder !in locked {
      EmptyAfterChildrenPrunable(t, locked, folder);
    }
    if Prunable(t, locked, folder) {
      PrunableEmptyAfterChildren(t, locked, folder);
    }
  }

  /** A folder left empty by pruning its children, and itself accepting deletion, was prunable. */
  lemma EmptyAfterChildrenPrunable(t: Tree, locked: set<Path>, folder: Path)
    requires Closed(t) && IsDir(t, folder)
    requires var u := Prune(t, locked, ChildDirs(t, folder));
      ChildDirs(u, folder) == {} && ChildFiles(u, folder) == {} && folder !in locked
    ensures Prunable(t, locked, folder)
  {
    forall r | r in t && Within(folder, r) ensures t[r] == Dir && r !in locked {
      if r != folder {
        BelowThroughChild(folder, r);
        var c := r[..|folder| + 1];
        if c != r {
          AncestorIsDir(t, c, r);
        }
        ChildWasPruned(t, locked, folder, c);
      }
    }
  }

  /** A child entry that is gone after pruning the children was prunable. */
  lemma ChildWasPruned(t: Tree, locked: set<Path>, folder: Path, c: Path)
    requires c in t && ChildOf(folder, c)
    requires var u := Prune(t, locked, ChildDirs(t, folder));
      ChildDirs(u, folder) == {} && ChildFiles(u, folder) == {}
    ensures Prunable(t, locked, c)
  {
    var u := Prune(t, locked, ChildDirs(t, folder));
    assert c !in ChildDirs(u, folder) && c !in ChildFiles(u, folder);
  }


  /** Pruning the children of a prunable folder leaves it empty. */
  lemma PrunableEmptyAfterChildren(t: Tree, locked: set<Path>, folder: Path)
    requires Closed(t) && Prunable(t, locked, folder)
    ensures var u := Prune(t, locked, ChildDirs(t, folder));
      ChildDirs(u, folder) == {} && ChildFiles(u, folder) == {} && folder !in locked
  {
    var gone := PrunedDirs(t, locked, ChildDirs(t, folder));
    forall c | c in t && ChildOf(folder, c) ensures c in gone {
      assert t[c] == Dir by { assert Within(folder, c); }
      forall r | r in t && Within(c, r) ensures t[r] == Dir && r !in locked {
        WithinTransitive(folder, c, r);
      }
      assert Within(c, c);
    }
  }


  lemma SweepNext(t: Tree, folders: seq<Path>, i: nat, underScc: string -> bool, locked: set<Path>)
    requires i < |folders|
    ensures Sweep(Sweep(t, Elems(folders[..i]), underScc, locked), {folders[i]}, underScc, locked) ==
            Sweep(t, Elems(folders[..i + 1]), underScc, locked)
  {
    SweepCompose(t, Elems(folders[..i]), {folders[i]}, underScc, locked);
    assert folders[..i + 1] == folders[..i] + [folders[i]];
    assert Elems(folders[..i + 1]) == Elems(folders[..i]) + {folders[i]};
  }

  lemma PruneNext(t: Tree, locked: set<Path>, folders: seq<Path>, i: nat)
    requires i < |folders|
    ensures Prune(Prune(t, locked, Elems(folders[..i])), locked, {folders[i]}) == Prune(t, locked, Elems(folders[..i + 1]))
  {
    PruneCompose(t, locked, Elems(folders[..i]), {folders[i]});
    assert folders[..i + 1] == folders[..i] + [folders[i]];
    assert Elems(folders[..i + 1]) == Elems(folders[..i]) + {folders[i]};
  }

  /** The last step of DeleteFolderRecursive: once the subfolders are pruned, delete the folder if it is empty. */
  lemma PruneFinish(t: Tree, locked: set<Path>, folder: Path, subFolders: seq<Path>, u: Tree)
    requires Closed(t) && IsDir(t, folder) && Lists(subFolders, ChildDirs(t, folder))
    requires u == Prune(t, locked, Elems(subFolders[..|subFolders|]))
    ensures IsDir(u, folder)
    ensures var empty := ChildDirs(u, folder) == {} && ChildFiles(u, folder) == {} && folder !in locked;
      (if empty then u - {folder} else u) == Prune(t, locked, {folder})
  {
    assert subFolders[..|subFolders|] == subFolders;
    assert Elems(subFolders) == ChildDirs(t, folder);
    PruneDecompose(t, locked, folder);
    EmptyAfterChildrenIffPrunable(t, locked, folder);
  }

  /** The entries a recursive call on a subfolder can see are fewer than the caller's. */
  lemma SubtreeShrinks(t: Tree, u: Tree, folder: Path, child: Path)
    requires u.Keys <= t.Keys && folder in t && ChildOf(folder, child)
    ensures |Subtree(u, child)| < |Subtree(t, folder)|
  {
    forall q | q in Subtree(u, child) ensures q in Subtree(t, folder) - {folder} {
      WithinTransitive(folder, child, q);
    }
    SubsetCardinality(Subtree(u, child), Subtree(t, folder) - {folder});
  }

  // ---------------------------------------------------------------- what the two phases promise

  /** A file the sweep keeps, and every directory above it, survives the whole delete. */
  lemma {:induction false} KeptFileKeepsAncestors(t: Tree, folders: set<Path>, underScc: string -> bool, locked: set<Path>, f: Path)
    requires IsFile(t, f) && Outcome(f, underScc, locked) != Deleted
    ensures IsFile(Sweep(t, folders, underScc, locked), f) && IsFile(Cleaned(t, folders, underScc, locked), f)
    ensures forall a :: IsDir(t, a) && Below(a, f) ==> IsDir(Cleaned(t, folders, underScc, locked), a)
  {
    var u := Sweep(t, folders, underScc, locked);
    assert f in u;
    forall a | IsDir(t, a) && Below(a, f) ensures !Prunable(u, locked, a) {
      assert f in u && Within(a, f) && u[f] == File;
    }
    PruneKeepsFilesAndClosure(u, locked, folders);
  }

  /** A .refresh file is never deleted, whatever its source-control status. */
  lemma RefreshFileNeverDeleted(t: Tree, folders: set<Path>, underScc: string -> bool, locked: set<Path>, f: Path)
    requires IsFile(t, f) && EndsWith(FullName(f), Refresh)
    ensures IsFile(Sweep(t, folders, underScc, locked), f) && IsFile(Cleaned(t, folders, underScc, locked), f)
  {
    KeptFileKeepsAncestors(t, folders, underScc, locked, f);
  }

  /** A file under source control that is not a .refresh file is never deleted. */
  lemma SourceControlledFileNeverDeleted(t: Tree, folders: set<Path>, underScc: string -> bool, locked: set<Path>, f: Path)
    requires IsFile(t, f) && !EndsWith(FullName(f), Refresh) && underScc(FullName(f))
    ensures IsFile(Sweep(t, folders, underScc, locked), f) && IsFile(Cleaned(t, folders, underScc, locked), f)
  {
    KeptFileKeepsAncestors(t, folders, underScc, locked, f);
  }

  /** An entry under no candidate folder is left as it was. */
  lemma OutsideCandidatesUnchanged(t: Tree, folders: set<Path>, underScc: string -> bool, locked: set<Path>, p: Path)
    requires p in t && forall c :: c in folders ==> !Within(c, p)
    ensures p in Cleaned(t, folders, underScc, locked) && Cleaned(t, folders, underScc, locked)[p] == t[p]
  {
    assert p !in SweptFiles(t, folders, underScc, locked);
    assert p !in PrunedDirs(Sweep(t, folders, underScc, locked), locked, folders);
  }

  /**
   * What the delete removes: a file strictly under a candidate whose outcome is Deleted, or a directory
   * at or under a candidate all of whose entries were removed and none of which refuses deletion.
   */
  lemma RemovedEntries(t: Tree, folders: set<Path>, underScc: string -> bool, locked: set<Path>, p: Path)
    requires p in t && p !in Cleaned(t, folders, underScc, locked)
    ensures t[p] == File ==> Outcome(p, underScc, locked) == Deleted && exists c :: c in folders && Below(c, p)
    ensures t[p] == Dir ==> (exists c :: c in folders && Within(c, p)) &&
                            forall r :: r in t && Within(p, r) ==> r !in Cleaned(t, folders, underScc, locked) && r !in locked
  {
    var u := Sweep(t, folders, underScc, locked);
    PruneKeepsFilesAndClosure(u, locked, folders);
    if t[p] == Dir {
      assert p in PrunedDirs(u, locked, folders);
      forall r | r in t && Within(p, r) ensures r !in Cleaned(t, folders, underScc, locked) && r !in locked {
        if r in u {
          assert u[r] == Dir && r !in locked;
          RemovedSubtree(u, locked, folders, p, r);
        }
      }
    }
  }

  lemma RemovedSubtree(u: Tree, locked: set<Path>, folders: set<Path>, p: Path, r: Path)
    requires p in PrunedDirs(u, locked, folders) && r in u && Within(p, r)
    ensures r in PrunedDirs(u, locked, folders)
  {
    forall x | x in u && Within(r, x) ensures u[x] == Dir && x !in locked {
      WithinTransitive(p, r, x);
    }
    var c :| c in folders && Within(c, p);
    WithinTransitive(c, p, r);
  }

  /**
   * A candidate whose files are all deleted and whose directories all accept deletion is removed
   * with everything under it.
   */
  lemma FullyDeletableCandidateRemoved(t: Tree, folders: set<Path>, underScc: string -> bool, locked: set<Path>, c: Path)
    requires c in folders && IsDir(t, c)
    requires forall r :: r in t && Within(c, r) ==>
               if t[r] == File then Outcome(r, underScc, locked) == Deleted else r !in locked
    ensures forall r :: Within(c, r) ==> r !in Cleaned(t, folders, underScc, locked)
  {
    var u := Sweep(t, folders, underScc, locked);
    forall x | x in t && Within(c, x) && t[x] == File ensures x in SweptFiles(t, folders, underScc, locked) {
      assert x != c && x[..|x|] == x;
    }
    forall r | r in u && Within(c, r) ensures r in PrunedDirs(u, locked, folders) {
      forall x | x in u && Within(r, x) ensures u[x] == Dir && x !in locked {
        WithinTransitive(c, r, x);
      }
    }
  }

  /**
   * Running the delete again over the same candidates, or over fewer, removes nothing: the second
   * pass of ExecuteAsync only finds what was recreated in between.
   */
  lemma {:induction false} CleanedIdempotent(t: Tree, folders: set<Path>, again: set<Path>, underScc: string -> bool, locked: set<Path>)
    requires again <= folders
    ensures Cleaned(Cleaned(t, folders, underScc, locked), again, underScc, locked) == Cleaned(t, folders, underScc, locked)
  {
    var s := Sweep(t, folders, underScc, locked);
    var gone := PrunedDirs(s, locked, folders);
    var u := s - gone;
    forall f | f in SweptFiles(u, again, underScc, locked) ensures f in SweptFiles(t, folders, underScc, locked) {
    }
    assert SweptFiles(u, again, underScc, locked) == {};
    assert Sweep(u, again, underScc, locked) == u;
    PrunableAfterRemoval(s, locked, gone);
    forall q | q in PrunedDirs(u, locked, again) ensures q in gone {
    }
    assert PrunedDirs(u, locked, again) == {};
  }

  // ---------------------------------------------------------------- the methods

  lemma SweptFilesOfFolder(t: Tree, folder: Path, underScc: string -> bool, locked: set<Path>)
    ensures SweptFiles(t, {folder}, underScc, locked) <= FilesBelow(t, folder)
    ensures forall f :: f in FilesBelow(t, folder) ==>
              (f in SweptFiles(t, {folder}, underScc, locked) <==> Outcome(f, underScc, locked) == Deleted)
  {
  }

  lemma SweepStep(t: Tree, nodes: Tree, seen: set<Path>, swept: set<Path>, f: Path, deleted: bool)
    requires nodes == t - (seen * swept) && (f in swept <==> deleted)
    ensures (if deleted then nodes - {f} else nodes) == t - ((seen + {f}) * swept)
  {
  }

  /** After the last file, the nodes are the sweep of the folder. */
  lemma SweepFolderDone(t: Tree, folder: Path, underScc: string -> bool, locked: set<Path>, files: seq<Path>, nodes: Tree)
    requires Lists(files, FilesBelow(t, folder))
    requires nodes == t - (Elems(files[..|files|]) * SweptFiles(t, {folder}, underScc, locked))
    ensures nodes == Sweep(t, {folder}, underScc, locked)
  {
    var swept := SweptFiles(t, {folder}, underScc, locked);
    assert files[..|files|] == files;
    SweptFilesOfFolder(t, folder, underScc, locked);
    forall x | x in swept ensures x in Elems(files) {
      assert x in FilesBelow(t, folder);
    }
    assert Elems(files) * swept == swept;
  }

  /** One file of phase A: the .refresh check, then the source-control check, then the delete. */
  method SweepFile(vol: Volume, f: Path, underScc: string -> bool) returns (outcome: FileOutcome)
    requires vol.Valid() && IsFile(vol.nodes, f)
    modifies vol
    ensures vol.Valid()
    ensures outcome == Outcome(f, underScc, vol.locked)
    ensures vol.nodes == if outcome == Deleted then old(vol.nodes) - {f} else old(vol.nodes)
  {
    if EndsWith(FullName(f), Refresh) {
      outcome := SkippedRefresh;
    } else if underScc(FullName(f)) {
      outcome := SkippedSourceControl;
    } else {
      var ok := vol.DeleteFile(f);
      outcome := if ok then Deleted else FailedIO;
    }
  }

  /** Sweeps the next listed file of a folder: afterwards the swept files among the first j + 1 listed are gone. */
  method SweepListed(vol: Volume, ghost t: Tree, ghost folder: Path, files: seq<Path>, j: nat, underScc: string -> bool)
    returns (outcome: FileOutcome)
    requires vol.Valid() && Lists(files, FilesBelow(t, folder)) && j < |files|
    requires vol.nodes == t - (Elems(files[..j]) * SweptFiles(t, {folder}, underScc, vol.locked))
    modifies vol
    ensures vol.Valid()
    ensures outcome == Outcome(files[j], underScc, vol.locked)
    ensures vol.nodes == t - (Elems(files[..j + 1]) * SweptFiles(t, {folder}, underScc, vol.locked))
  {
    ghost var swept := SweptFiles(t, {folder}, underScc, vol.locked);
    ghost var before := vol.nodes;
    NextInList(files, FilesBelow(t, folder), j);
    SweptFilesOfFolder(t, folder, underScc, vol.locked);
    outcome := SweepFile(vol, files[j], underScc);
    SweepStep(t, before, Elems(files[..j]), swept, files[j], outcome == Deleted);
  }

  /** One folder of phase A: list its files once, then one outcome and one progress report per file. */
  method SweepFolder(vol: Volume, folder: Path, underScc: string -> bool) returns (report: Option<SweepReport>)
    requires vol.Valid()
    modifies vol
    ensures vol.Valid()
    ensures report.None? <==> !IsDir(old(vol.nodes), folder)
    ensures report.None? ==> vol.nodes == old(vol.nodes)
    ensures report.Some? ==> vol.nodes == Sweep(old(vol.nodes), {folder}, underScc, vol.locked)
    ensures report.Some? ==> ReportsSweep(old(vol.nodes), folder, underScc, vol.locked, report.value)
  {
    var listing := vol.GetFiles(folder, true);
    if listing.None? {
      return None;
    }
    var files := listing.value;
    ghost var t := vol.nodes;
    ghost var swept := SweptFiles(t, {folder}, underScc, vol.locked);
    var outcomes: seq<FileOutcome> := [];
    var progress: seq<nat> := [];
    var idx: nat := 0;
    for j := 0 to |files|
      invariant vol.Valid()
      invariant idx == j
      invariant |outcomes| == j
      invariant forall k :: 0 <= k < j ==> outcomes[k] == Outcome(files[k], underScc, vol.locked)
      invariant progress == OneTo(idx)
      invariant vol.nodes == t - (Elems(files[..j]) * swept)
    {
      var outcome := SweepListed(vol, t, folder, files, j, underScc);
      outcomes := outcomes + [outcome];
      idx := idx + 1;
      progress := progress + [idx];
    }
    SweepFolderDone(t, folder, underScc, vol.locked, files, vol.nodes);
    report := Some(SweepReport(folder, files, outcomes, progress));
  }

  /** One more report, for the next folder, keeps every report describing the sweep its folder saw. */
  lemma ReportsStep(t: Tree, folders: seq<Path>, underScc: string -> bool, locked: set<Path>, reports: seq<SweepReport>, r: SweepReport)
    requires |reports| < |folders|
    requires forall k :: 0 <= k < |reports| ==>
               IsDir(t, folders[k]) && ReportsSweep(Sweep(t, Elems(folders[..k]), underScc, locked), folders[k], underScc, locked, reports[k])
    requires IsDir(t, folders[|reports|])
    requires ReportsSweep(Sweep(t, Elems(folders[..|reports|]), underScc, locked), folders[|reports|], underScc, locked, r)
    ensures forall k :: 0 <= k < |reports| + 1 ==>
              IsDir(t, folders[k]) && ReportsSweep(Sweep(t, Elems(folders[..k]), underScc, locked), folders[k], underScc, locked, (reports + [r])[k])
  {
    forall k | 0 <= k < |reports| + 1
      ensures IsDir(t, folders[k]) && ReportsSweep(Sweep(t, Elems(folders[..k]), underScc, locked), folders[k], underScc, locked, (reports + [r])[k])
    {
      if k < |reports| {
        assert (reports + [r])[k] == reports[k];
      }
    }
  }

  /** Phase A for folder i, after the folders before it were swept. */
  method SweepNextFolder(vol: Volume, ghost t: Tree, folders: seq<Path>, i: nat, underScc: string -> bool)
    returns (r: Option<SweepReport>)
    requires vol.Valid() && i < |folders|
    requires vol.nodes == Sweep(t, Elems(folders[..i]), underScc, vol.locked)
    modifies vol
    ensures vol.Valid()
    ensures r.None? <==> !IsDir(t, folders[i])
    ensures r.None? ==> vol.nodes == old(vol.nodes)
    ensures r.Some? ==> vol.nodes == Sweep(t, Elems(folders[..i + 1]), underScc, vol.locked)
    ensures r.Some? ==> ReportsSweep(old(vol.nodes), folders[i], underScc, vol.locked, r.value)
  {
    SweepRemovesOnlyFiles(t, Elems(folders[..i]), underScc, vol.locked);
    r := SweepFolder(vol, folders[i], underScc);
    if r.Some? {
      SweepNext(t, folders, i, underScc, vol.locked);
    }
  }

  /**
   * DeleteFilesAsync: phase A sweeps every folder, and only then phase B prunes every folder. A
   * folder that does not exist makes its file listing throw: the exception leaves the method,
   * so the folders after it are not swept and nothing is pruned.
   */
  method DeleteFiles(vol: Volume, folders: seq<Path>, underScc: string -> bool)
    returns (completed: bool, reports: seq<SweepReport>)
    requires vol.Valid()
    modifies vol
    ensures vol.Valid()
    ensures completed <==> forall c :: c in folders ==> IsDir(old(vol.nodes), c)
    ensures completed ==> |reports| == |folders| &&
                          vol.nodes == Cleaned(old(vol.nodes), Elems(folders), underScc, vol.locked)
    ensures !completed ==> |reports| < |folders| && !IsDir(old(vol.nodes), folders[|reports|]) &&
                           vol.nodes == Sweep(old(vol.nodes), Elems(folders[..|reports|]), underScc, vol.locked)
    ensures |reports| <= |folders|
    ensures forall i :: 0 <= i < |reports| ==>
              IsDir(old(vol.nodes), folders[i]) &&
              ReportsSweep(Sweep(old(vol.nodes), Elems(folders[..i]), underScc, vol.locked), folders[i], underScc, vol.locked, reports[i])
  {
    ghost var t := vol.nodes;
    reports := [];
    for i := 0 to |folders|
      invariant vol.Valid()
      invariant |reports| == i
      invariant vol.nodes == Sweep(t, Elems(folders[..i]), underScc, vol.locked)
      invariant forall k :: 0 <= k < i ==>
                  IsDir(t, folders[k]) &&
                  ReportsSweep(Sweep(t, Elems(folders[..k]), underScc, vol.locked), folders[k], underScc, vol.locked, reports[k])
    {
      var r := SweepNextFolder(vol, t, folders, i, underScc);
      if r.None? {
        completed := false;
        return;
      }
      ReportsStep(t, folders, underScc, vol.locked, reports, r.value);
      reports := reports + [r.value];
    }
    assert folders[..|folders|] == folders;
    ghost var swept := vol.nodes;
    for i := 0 to |folders|
      invariant vol.Valid()
      invariant vol.nodes == Prune(swept, vol.locked, Elems(folders[..i]))
    {
      DeleteFolderRecursive(vol, folders[i]);
      PruneNext(swept, vol.locked, folders, i);
    }
    completed := true;
  }

  /**
   * DeleteFolderRecursive: recurse into every subfolder first, then delete the folder when it holds
   * no file and no subfolder. A failing delete is caught and reported, and so is a folder that no
   * longer exists (its enumeration throws): neither stops the caller's remaining folders.
   */
  method DeleteFolderRecursive(vol: Volume, folder: Path)
    requires vol.Valid()
    modifies vol
    ensures vol.Valid()
    ensures vol.nodes == Prune(old(vol.nodes), vol.locked, {folder})
    decreases |Subtree(vol.nodes, folder)|
  {
    ghost var t := vol.nodes;
    var listing := vol.GetDirectories(folder, false);
    if listing.None? {
      PruneOfMissingFolder(t, vol.locked, folder);
      return;
    }
    var subFolders := listing.value;
    for i := 0 to |subFolders|
      invariant vol.Valid()
      invariant vol.nodes == Prune(t, vol.locked, Elems(subFolders[..i]))
    {
      NextInList(subFolders, ChildDirs(t, folder), i);
      SubtreeShrinks(t, vol.nodes, folder, subFolders[i]);
      DeleteFolderRecursive(vol, subFolders[i]);
      PruneNext(t, vol.locked, subFolders, i);
    }
    ghost var u := vol.nodes;
    PruneFinish(t, vol.locked, folder, subFolders, u);
    var files := vol.GetFiles(folder, false);
    var dirs := vol.GetDirectories(folder, false);
    ListsEmpty(files.value, ChildFiles(u, folder));
    ListsEmpty(dirs.value, ChildDirs(u, folder));
    if files.value == [] && dirs.value == [] {
      var ok := vol.DeleteDirectory(folder, false);
    }
  }
}
