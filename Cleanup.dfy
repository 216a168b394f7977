/**
 * The discovery of the CleanupCommand base class: a fixed-depth lookup of root\<name> for every
 * project, the IIS Express folders once per project, and then only the folders that exist. Its
 * DeleteFilesAsync and DeleteFolderRecursive are the two-phase delete of SafeDelete.
 */
module Cleanup {
  import opened Wrappers
  import opened Paths
  import opened FileSystem
  import opened Options
  import opened Workspace
  import SolutionCleanup
  import SafeDelete

  /** The folders one project contributes, before the existence filter, in the order they are added. */
  function FixedFolders(o: General, myDocs: Path, root: Path): seq<Path> {
    BinPart(o, root) + DotVsPart(o, root) + PackagesPart(o, root) + TestResultsPart(o, root) +
    LogsPart(o, myDocs) + TracesPart(o, myDocs)
  }

  function BinPart(o: General, root: Path): seq<Path> {
    if o.deleteBinFolder then [root + [SolutionCleanup.Bin], root + [SolutionCleanup.Obj]] else []
  }

  function DotVsPart(o: General, root: Path): seq<Path> {
    if o.deleteDotVsFolder then [root + [SolutionCleanup.DotVs]] else []
  }

  function PackagesPart(o: General, root: Path): seq<Path> {
    if o.deletePackagesFolder then [root + [SolutionCleanup.Packages]] else []
  }

  function TestResultsPart(o: General, root: Path): seq<Path> {
    if o.deleteTestResultsFolder then [root + [SolutionCleanup.TestResults]] else []
  }

  function LogsPart(o: General, myDocs: Path): seq<Path> {
    if o.deleteIisExpressLogsFolder then [SolutionCleanup.IisExpressLogsPath(myDocs)] else []
  }

  function TracesPart(o: General, myDocs: Path): seq<Path> {
    if o.deleteIisExpressTraceLogFilesFolder then [SolutionCleanup.IisExpressTraceLogFilesPath(myDocs)] else []
  }

  /** The candidates of one project are exactly the fixed paths whose flags are set. */
  lemma FixedFoldersMembers(o: General, myDocs: Path, root: Path)
    ensures forall q :: q in FixedFolders(o, myDocs, root) <==>
              || (o.deleteBinFolder && (q == root + [SolutionCleanup.Bin] || q == root + [SolutionCleanup.Obj]))
              || (o.deleteDotVsFolder && q == root + [SolutionCleanup.DotVs])
              || (o.deletePackagesFolder && q == root + [SolutionCleanup.Packages])
              || (o.deleteTestResultsFolder && q == root + [SolutionCleanup.TestResults])
              || (o.deleteIisExpressLogsFolder && q == SolutionCleanup.IisExpressLogsPath(myDocs))
              || (o.deleteIisExpressTraceLogFilesFolder && q == SolutionCleanup.IisExpressTraceLogFilesPath(myDocs))
  {
    forall q ensures q in FixedFolders(o, myDocs, root) <==>
                     || q in BinPart(o, root) || q in DotVsPart(o, root) || q in PackagesPart(o, root)
                     || q in TestResultsPart(o, root) || q in LogsPart(o, myDocs) || q in TracesPart(o, myDocs)
    {
    }
  }

  /** The number of folders a project contributes: one per flag that is set, two for the bin flag. */
  function FlagCount(o: General): nat {
    (if o.deleteBinFolder then 2 else 0) + (if o.deleteDotVsFolder then 1 else 0) +
    (if o.deletePackagesFolder then 1 else 0) + (if o.deleteTestResultsFolder then 1 else 0) +
    (if o.deleteIisExpressLogsFolder then 1 else 0) + (if o.deleteIisExpressTraceLogFilesFolder then 1 else 0)
  }

  /** There is no search: a project contributes its own direct subfolders and the two IIS Express folders, no others. */
  lemma FixedFoldersShape(o: General, myDocs: Path, root: Path)
    ensures |FixedFolders(o, myDocs, root)| == FlagCount(o)
    ensures forall q :: q in FixedFolders(o, myDocs, root) ==>
              ChildOf(root, q) ||
              q == SolutionCleanup.IisExpressLogsPath(myDocs) || q == SolutionCleanup.IisExpressTraceLogFilesPath(myDocs)
  {
    assert |FixedFolders(o, myDocs, root)| ==
             |BinPart(o, root)| + |DotVsPart(o, root)| + |PackagesPart(o, root)| + |TestResultsPart(o, root)| +
             |LogsPart(o, myDocs)| + |TracesPart(o, myDocs)|;
    FixedFoldersMembers(o, myDocs, root);
    forall q | q in FixedFolders(o, myDocs, root) && q != SolutionCleanup.IisExpressLogsPath(myDocs) &&
               q != SolutionCleanup.IisExpressTraceLogFilesPath(myDocs)
      ensures ChildOf(root, q)
    {
      assert q[..|root|] == root;
    }
  }

  /** The flags whose folders are combined with the project directory: Path.Combine rejects a null directory. */
  predicate NeedsProjectRoot(o: General) {
    o.deleteBinFolder || o.deleteDotVsFolder || o.deletePackagesFolder || o.deleteTestResultsFolder
  }

  /**
   * The Add calls of one project, given its directory. A project without one throws at the first
   * Path.Combine of a root-based flag; with only the IIS Express flags set it still adds those two
   * folders, which do not use the directory.
   */
  function ProjectFolders(o: General, myDocs: Path, root: Option<Path>): (r: Option<seq<Path>>)
    ensures r.None? <==> root.None? && NeedsProjectRoot(o)
    ensures r.Some? ==> |r.value| == FlagCount(o)
    ensures r.Some? && root.None? ==> forall q :: q in r.value ==>
              q == SolutionCleanup.IisExpressLogsPath(myDocs) || q == SolutionCleanup.IisExpressTraceLogFilesPath(myDocs)
  {
    if root.Some? then
      FixedFoldersShape(o, myDocs, root.value);
      Some(FixedFolders(o, myDocs, root.value))
    else if NeedsProjectRoot(o) then None
    else Some(LogsPart(o, myDocs) + TracesPart(o, myDocs))
  }

  /**
   * The list built by the project loop: None when a root-based flag is set and some project has
   * no path, for then the path calls throw.
   */
  function FixedListing(o: General, myDocs: Path, projects: seq<Project>): (r: Option<seq<Path>>)
    ensures r.None? <==> NeedsProjectRoot(o) && exists p :: p in projects && ProjectDirectory(p).None?
  {
    if projects == [] then Some([])
    else
      var init := projects[..|projects| - 1];
      var p := projects[|projects| - 1];
      assert projects == init + [p];
      var rest := FixedListing(o, myDocs, init);
      var own := ProjectFolders(o, myDocs, ProjectDirectory(p));
      if rest.None? || own.None? then None
      else Some(rest.value + own.value)
  }

  /** No deduplication: every project contributes all its fixed folders, even projects sharing a directory. */
  lemma {:induction false} FixedListingLength(o: General, myDocs: Path, projects: seq<Project>)
    requires FixedListing(o, myDocs, projects).Some?
    ensures |FixedListing(o, myDocs, projects).value| == |projects| * FlagCount(o)
    decreases |projects|
  {
    if projects != [] {
      var n := |projects| - 1;
      FixedListingStep(o, myDocs, projects);
      FixedListingLength(o, myDocs, projects[..n]);
      var own := ProjectFolders(o, myDocs, ProjectDirectory(projects[n])).value;
      assert |FixedListing(o, myDocs, projects).value| == |FixedListing(o, myDocs, projects[..n]).value| + |own|;
      assert |own| == FlagCount(o);
      OneMoreTimes(n, FlagCount(o));
    }
  }

  /** (n + 1) * k == n * k + k, stated apart so that the induction above stays linear. */
  lemma OneMoreTimes(n: nat, k: nat)
    ensures (n + 1) * k == n * k + k
  {
  }

  /** The listing of all projects is the listing of all but the last, then the last one's folders. */
  lemma FixedListingStep(o: General, myDocs: Path, projects: seq<Project>)
    requires FixedListing(o, myDocs, projects).Some? && projects != []
    ensures var n := |projects| - 1;
      && FixedListing(o, myDocs, projects[..n]).Some?
      && ProjectFolders(o, myDocs, ProjectDirectory(projects[n])).Some?
      && FixedListing(o, myDocs, projects).value ==
           FixedListing(o, myDocs, projects[..n]).value + ProjectFolders(o, myDocs, ProjectDirectory(projects[n])).value
  {
  }

  /** r can be obtained from s by deleting elements: matched greedily from the end. */
  predicate IsSubsequence(r: seq<Path>, s: seq<Path>)
    decreases |s|
  {
    || r == []
    || (s != [] &&
        if r[|r| - 1] == s[|s| - 1] then IsSubsequence(r[..|r| - 1], s[..|s| - 1]) else IsSubsequence(r, s[..|s| - 1]))
  }

  /** Where(d => d.Exists): the listed folders that exist as directories, in listing order. */
  function ExistingOnly(t: Tree, s: seq<Path>): (r: seq<Path>)
    ensures forall q :: q in r <==> q in s && IsDir(t, q)
    ensures forall q :: multiset(r)[q] == if IsDir(t, q) then multiset(s)[q] else 0
    ensures IsSubsequence(r, s)
    ensures |r| <= |s|
    ensures (forall q :: q in s ==> IsDir(t, q)) ==> r == s
  {
    if s == [] then []
    else
      var rest := ExistingOnly(t, s[..|s| - 1]);
      var q := s[|s| - 1];
      assert s == s[..|s| - 1] + [q];
      if IsDir(t, q) then
        assert (rest + [q])[..|rest|] == rest;
        rest + [q]
      else
        rest
  }

  /** The body of the project loop: the Add calls for one project directory, None where Path.Combine throws. */
  method AddFixedFolders(start: seq<Path>, o: General, myDocs: Path, root: Option<Path>) returns (r: Option<seq<Path>>)
    ensures r.None? <==> ProjectFolders(o, myDocs, root).None?
    ensures r.Some? ==> r.value == start + ProjectFolders(o, myDocs, root).value
  {
    ghost var base: Path := if root.Some? then root.value else [];
    var deletables := start;
    if o.deleteBinFolder {
      if root.None? { return None; }
      deletables := deletables + [root.value + [SolutionCleanup.Bin]];
      deletables := deletables + [root.value + [SolutionCleanup.Obj]];
    }
    ghost var afterBin := deletables;
    if o.deleteDotVsFolder {
      if root.None? { return None; }
      deletables := deletables + [root.value + [SolutionCleanup.DotVs]];
    }
    ghost var afterDotVs := deletables;
    if o.deletePackagesFolder {
      if root.None? { return None; }
      deletables := deletables + [root.value + [SolutionCleanup.Packages]];
    }
    ghost var afterPackages := deletables;
    if o.deleteTestResultsFolder {
      if root.None? { return None; }
      deletables := deletables + [root.value + [SolutionCleanup.TestResults]];
    }
    ghost var afterTestResults := deletables;
    if o.deleteIisExpressLogsFolder {
      deletables := deletables + [SolutionCleanup.IisExpressLogsPath(myDocs)];
    }
    ghost var afterLogs := deletables;
    if o.deleteIisExpressTraceLogFilesFolder {
      deletables := deletables + [SolutionCleanup.IisExpressTraceLogFilesPath(myDocs)];
    }
    // each Add block appends that block's part; without a directory the root-based parts are empty
    assert afterBin == start + BinPart(o, base);
    assert afterDotVs == afterBin + DotVsPart(o, base);
    assert afterPackages == afterDotVs + PackagesPart(o, base);
    assert afterTestResults == afterPackages + TestResultsPart(o, base);
    assert afterLogs == afterTestResults + LogsPart(o, myDocs);
    assert deletables == afterLogs + TracesPart(o, myDocs);
    AppendSix(start, BinPart(o, base), DotVsPart(o, base), PackagesPart(o, base), TestResultsPart(o, base),
              LogsPart(o, myDocs), TracesPart(o, myDocs));
    assert root.None? ==> FixedFolders(o, myDocs, base) == LogsPart(o, myDocs) + TracesPart(o, myDocs);
    r := Some(deletables);
  }

  /** Appending six parts one by one is appending their concatenation. */
  lemma AppendSix(s: seq<Path>, a: seq<Path>, b: seq<Path>, c: seq<Path>, d: seq<Path>, e: seq<Path>, f: seq<Path>)
    ensures s + a + b + c + d + e + f == s + (a + b + c + d + e + f)
  {
  }



  /**
   * GetDeletables: the fixed folders of every project in project order, then only the existing ones.
   * None when a root-based flag is set and a project has no path.
   */
  method GetDeletables(vol: Volume, o: General, myDocs: Path, projects: seq<Project>) returns (r: Option<seq<Path>>)
    ensures r.None? <==> FixedListing(o, myDocs, projects).None?
    ensures r.Some? ==> r.value == ExistingOnly(vol.nodes, FixedListing(o, myDocs, projects).value)
    ensures r.Some? ==> forall q :: q in r.value ==> IsDir(vol.nodes, q)
  {
    var deletables: seq<Path> := [];
    for i := 0 to |projects|
      invariant FixedListing(o, myDocs, projects[..i]) == Some(deletables)
    {
      assert projects[..i + 1][..i] == projects[..i];
      var projectRoot := ProjectDirectory(projects[i]);
      var added := AddFixedFolders(deletables, o, myDocs, projectRoot);
      if added.None? {
        assert projects[i] in projects;
        return None;
      }
      deletables := added.value;
    }
    assert projects[..|projects|] == projects;
    r := Some(ExistingOnly(vol.nodes, deletables));
  }

  // ---------------------------------------------------------------- discovery followed by the delete

  /**
   * The base class's discovery followed by its DeleteFilesAsync, which is the two-phase delete of
   * SafeDelete over the existing fixed folders. A project without a path throws before anything
   * is deleted when a root-based flag is set.
   */
  function Pass(t: Tree, locked: set<Path>, o: General, myDocs: Path, underScc: string -> bool, projects: seq<Project>): (r: Tree)
    ensures forall p :: p in r ==> p in t && r[p] == t[p]
    ensures WellFormed(t) ==> WellFormed(r)
    ensures FixedListing(o, myDocs, projects).None? ==> r == t
  {
    var listing := FixedListing(o, myDocs, projects);
    if listing.None? then t
    else SafeDelete.Cleaned(t, Elems(ExistingOnly(t, listing.value)), underScc, locked)
  }

  /** A .refresh file, and a file under source control, survive the pass. */
  lemma PassKeepsProtectedFiles(t: Tree, locked: set<Path>, o: General, myDocs: Path, underScc: string -> bool,
                                projects: seq<Project>, f: Path)
    requires IsFile(t, f) && (EndsWith(FullName(f), SafeDelete.Refresh) || underScc(FullName(f)))
    ensures IsFile(Pass(t, locked, o, myDocs, underScc, projects), f)
  {
    var listing := FixedListing(o, myDocs, projects);
    if listing.Some? {
      SafeDelete.KeptFileKeepsAncestors(t, Elems(ExistingOnly(t, listing.value)), underScc, locked, f);
    }
  }

  /** An entry under none of the fixed folders is left as it was. */
  lemma PassStaysInFixedFolders(t: Tree, locked: set<Path>, o: General, myDocs: Path, underScc: string -> bool,
                                projects: seq<Project>, p: Path)
    requires p in t
    requires FixedListing(o, myDocs, projects).Some? ==>
               forall q :: q in FixedListing(o, myDocs, projects).value ==> !Within(q, p)
    ensures p in Pass(t, locked, o, myDocs, underScc, projects) && Pass(t, locked, o, myDocs, underScc, projects)[p] == t[p]
  {
    var listing := FixedListing(o, myDocs, projects);
    if listing.Some? {
      SafeDelete.OutsideCandidatesUnchanged(t, Elems(ExistingOnly(t, listing.value)), underScc, locked, p);
    }
  }

  /**
   * A directory the pass removes lies at or under an existing fixed folder, and it went only
   * because everything under it went and none of it refused deletion.
   */
  lemma PassRemovesOnlyEmptiedFolders(t: Tree, locked: set<Path>, o: General, myDocs: Path, underScc: string -> bool,
                                      projects: seq<Project>, p: Path)
    requires IsDir(t, p) && p !in Pass(t, locked, o, myDocs, underScc, projects)
    ensures FixedListing(o, myDocs, projects).Some?
    ensures exists c :: c in FixedListing(o, myDocs, projects).value && IsDir(t, c) && Within(c, p)
    ensures forall r :: r in t && Within(p, r) ==> r !in Pass(t, locked, o, myDocs, underScc, projects) && r !in locked
  {
    var listing := FixedListing(o, myDocs, projects);
    var folders := Elems(ExistingOnly(t, listing.value));
    SafeDelete.RemovedEntries(t, folders, underScc, locked, p);
  }
}
