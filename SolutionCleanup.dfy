/**
 * The Solution Cleanup command: find the folders to delete under every loaded project (a name
 * match at any depth, plus the IIS Express folders under My Documents), run the two-phase delete
 * over them, do both once more, then run the native clean if the options ask for it.
 */
module SolutionCleanup {
  import opened Wrappers
  import opened Paths
  import opened FileSystem
  import opened Options
  import opened Workspace
  import opened DirectoryInfoComparer
  import opened SafeDelete

  const Bin: Name := "bin"
  const Obj: Name := "obj"
  const DotVs: Name := ".vs"
  const Packages: Name := "packages"
  const TestResults: Name := "TestResults"
  const IisExpress: Name := "IISExpress"
  const Logs: Name := "Logs"
  const Traces: Name := "TraceLogFiles"

  // ---------------------------------------------------------------- which folders are candidates

  /** The name test of the discovery filter: ordinal equality with a name whose flag is set. */
  predicate IsDeletableName(o: General, name: Name) {
    || (o.deleteBinFolder && (name == Bin || name == Obj))
    || (o.deleteDotVsFolder && name == DotVs)
    || (o.deletePackagesFolder && name == Packages)
    || (o.deleteTestResultsFolder && name == TestResults)
  }

  /** DirectoryInfo.Name passes the filter. */
  predicate Selected(o: General, q: Path) {
    q != [] && IsDeletableName(o, q[|q| - 1])
  }

  /** Only the five folder names are ever selected, each only under its own flag. */
  lemma SelectedNames(o: General, name: Name)
    ensures IsDeletableName(o, name) ==> name in {Bin, Obj, DotVs, Packages, TestResults}
    ensures IsDeletableName(o, name) <==>
              (name in {Bin, Obj} && o.deleteBinFolder) || (name == DotVs && o.deleteDotVsFolder) ||
              (name == Packages && o.deletePackagesFolder) || (name == TestResults && o.deleteTestResultsFolder)
  {
  }

  /** With the initial options, exactly bin and obj are selected. */
  lemma InitialSelectsBinAndObj(name: Name)
    ensures IsDeletableName(Initial(), name) <==> name == Bin || name == Obj
  {
  }

  /** Path.Combine(MyDocuments, "IISExpress", "Logs"). */
  function IisExpressLogsPath(myDocs: Path): (r: Path)
    ensures ChildOf(myDocs + [IisExpress], r) && r[|r| - 1] == Logs
  {
    myDocs + [IisExpress, Logs]
  }

  /** Path.Combine(MyDocuments, "IISExpress", "TraceLogFiles"). */
  function IisExpressTraceLogFilesPath(myDocs: Path): (r: Path)
    ensures ChildOf(myDocs + [IisExpress], r) && r[|r| - 1] == Traces
  {
    myDocs + [IisExpress, Traces]
  }

  /** The full name of myDocs + [IisExpress, n]. */
  lemma IisExpressFullName(myDocs: Path, n: Name)
    ensures FullName(myDocs + [IisExpress, n]) == FullName(myDocs) + ([Separator] + IisExpress + [Separator] + n)
  {
    var mid := myDocs + [IisExpress];
    assert myDocs + [IisExpress, n] == mid + [n];
    FullNameAppend(myDocs, IisExpress);
    FullNameAppend(mid, n);
  }

  /** The two IIS Express folders are different siblings, and their full names are the combined strings. */
  lemma IisExpressFolders(myDocs: Path)
    ensures IisExpressLogsPath(myDocs) != IisExpressTraceLogFilesPath(myDocs)
    ensures FullName(IisExpressLogsPath(myDocs)) == FullName(myDocs) + "\\IISExpress\\Logs"
    ensures FullName(IisExpressTraceLogFilesPath(myDocs)) == FullName(myDocs) + "\\IISExpress\\TraceLogFiles"
  {
    IisExpressFullName(myDocs, Logs);
    IisExpressFullName(myDocs, Traces);
    IisExpressSuffixes();
  }

  /** The two relative paths, spelled out. */
  lemma IisExpressSuffixes()
    ensures [Separator] + IisExpress + [Separator] + Logs == "\\IISExpress\\Logs"
    ensures [Separator] + IisExpress + [Separator] + Traces == "\\IISExpress\\TraceLogFiles"
  {
  }


  /** The IIS Express folders one project adds: each existing one whose flag is set, Logs first. */
  function IisFolders(t: Tree, o: General, myDocs: Path): (r: seq<Path>)
    ensures forall q :: q in r <==>
              (q == IisExpressLogsPath(myDocs) && o.deleteIisExpressLogsFolder && IsDir(t, q)) ||
              (q == IisExpressTraceLogFilesPath(myDocs) && o.deleteIisExpressTraceLogFilesFolder && IsDir(t, q))
    ensures forall i, j :: 0 <= i < j < |r| ==> r[i] != r[j]
  {
    IisExpressFolders(myDocs);
    (if o.deleteIisExpressLogsFolder && IsDir(t, IisExpressLogsPath(myDocs)) then [IisExpressLogsPath(myDocs)] else []) +
    (if o.deleteIisExpressTraceLogFilesFolder && IsDir(t, IisExpressTraceLogFilesPath(myDocs)) then [IisExpressTraceLogFilesPath(myDocs)] else [])
  }

  /** The subtree part of one project's candidates: every directory under its project directory that passes the filter. */
  function MatchingBelow(t: Tree, o: General, dir: Path): set<Path> {
    set q | q in DirsBelow(t, dir) && Selected(o, q)
  }

  /** Every project directory of the list exists: otherwise enumerating it throws. */
  predicate Discoverable(t: Tree, projects: seq<Project>) {
    forall p :: p in projects ==> ProjectDirectory(p).Some? && IsDir(t, ProjectDirectory(p).value)
  }

  /** Why a directory is a candidate: a selected name strictly under a project directory, or an IIS Express folder. */
  predicate IsCandidate(t: Tree, o: General, myDocs: Path, projects: seq<Project>, q: Path) {
    || (IsDir(t, q) && Selected(o, q) &&
        exists p :: p in projects && ProjectDirectory(p).Some? && Below(ProjectDirectory(p).value, q))
    || (projects != [] && q in IisFolders(t, o, myDocs))
  }

  function CandidateSet(t: Tree, o: General, myDocs: Path, projects: seq<Project>): set<Path> {
    set q | q in t.Keys && IsCandidate(t, o, myDocs, projects, q)
  }

  /** The listing GetDeletables builds, as a multiset: every project adds its own matches and the IIS folders. */
  function Expected(t: Tree, o: General, myDocs: Path, projects: seq<Project>): multiset<Path> {
    if projects == [] then multiset{}
    else
      var p := projects[|projects| - 1];
      var own := if ProjectDirectory(p).Some? then MatchingBelow(t, o, ProjectDirectory(p).value) else {};
      Expected(t, o, myDocs, projects[..|projects| - 1]) + multiset(own) + multiset(IisFolders(t, o, myDocs))
  }

  /** The elements of the expected listing are exactly the candidates. */
  lemma {:induction false} ExpectedAreCandidates(t: Tree, o: General, myDocs: Path, projects: seq<Project>)
    ensures forall q :: q in Expected(t, o, myDocs, projects) <==> IsCandidate(t, o, myDocs, projects, q)
    decreases |projects|
  {
    if projects != [] {
      var init := projects[..|projects| - 1];
      var p := projects[|projects| - 1];
      ExpectedAreCandidates(t, o, myDocs, init);
      assert projects == init + [p];
      forall q ensures q in Expected(t, o, myDocs, projects) <==> IsCandidate(t, o, myDocs, projects, q) {
        if ProjectDirectory(p).Some? && q in MatchingBelow(t, o, ProjectDirectory(p).value) {
          assert p in projects && Below(ProjectDirectory(p).value, q);
        }
        if IsCandidate(t, o, myDocs, projects, q) && q !in IisFolders(t, o, myDocs) {
          var w :| w in projects && ProjectDirectory(w).Some? && Below(ProjectDirectory(w).value, q);
          assert w in init || w == p;
        }
      }
    }
  }

  /** How many of the projects have q among their own subtree matches. */
  function ProjectsAbove(t: Tree, o: General, projects: seq<Project>, q: Path): (n: nat)
    ensures n <= |projects|
  {
    if projects == [] then 0
    else
      var p := projects[|projects| - 1];
      ProjectsAbove(t, o, projects[..|projects| - 1], q) +
      (if ProjectDirectory(p).Some? && q in MatchingBelow(t, o, ProjectDirectory(p).value) then 1 else 0)
  }

  /**
   * How often the listing holds a folder: once for each project whose subtree matches it, and an
   * IIS Express folder once per project. The deduplication covers only one project's subtree matches.
   */
  lemma {:induction false} ExpectedCount(t: Tree, o: General, myDocs: Path, projects: seq<Project>, q: Path)
    ensures Expected(t, o, myDocs, projects)[q] ==
              ProjectsAbove(t, o, projects, q) + (if q in IisFolders(t, o, myDocs) then |projects| else 0)
    decreases |projects|
  {
    if projects != [] {
      ExpectedCount(t, o, myDocs, projects[..|projects| - 1], q);
      DistinctCount(IisFolders(t, o, myDocs), q);
    }
  }

  /** A sequence without repetition holds each of its elements once. */
  lemma {:induction false} DistinctCount(s: seq<Path>, q: Path)
    requires forall i, j :: 0 <= i < j < |s| ==> s[i] != s[j]
    ensures multiset(s)[q] == if q in s then 1 else 0
    decreases |s|
  {
    if s != [] {
      var init := s[..|s| - 1];
      assert s == init + [s[|s| - 1]];
      DistinctCount(init, q);
    }
  }

  /** Two projects in one directory: each folder they match is listed twice. */
  lemma SharedDirectoryListedTwice(t: Tree, o: General, myDocs: Path, p1: Project, p2: Project, q: Path)
    requires ProjectDirectory(p1).Some? && ProjectDirectory(p1) == ProjectDirectory(p2)
    requires q in MatchingBelow(t, o, ProjectDirectory(p1).value)
    ensures Expected(t, o, myDocs, [p1, p2])[q] >= 2
  {
    ExpectedCount(t, o, myDocs, [p1, p2], q);
    assert [p1, p2][..1] == [p1];
    assert [p1][..0] == [];
  }

  // ---------------------------------------------------------------- the filter and the listing

  /** The Where filter over a directory listing, in listing order. */
  function Matching(o: General, s: seq<Path>): (r: seq<Path>)
    ensures forall q :: q in r <==> q in s && Selected(o, q)
    ensures (forall i, j :: 0 <= i < j < |s| ==> s[i] != s[j]) ==> forall i, j :: 0 <= i < j < |r| ==> r[i] != r[j]
  {
    if s == [] then []
    else
      var rest := Matching(o, s[..|s| - 1]);
      var q := s[|s| - 1];
      assert s == s[..|s| - 1] + [q];
      if Selected(o, q) then rest + [q] else rest
  }

  /** Concatenation of the per-project parts, in project order. */
  function Flatten(parts: seq<seq<Path>>): (r: seq<Path>)
    ensures multiset(r) == (if parts == [] then multiset{} else multiset(Flatten(parts[..|parts| - 1])) + multiset(parts[|parts| - 1]))
  {
    if parts == [] then [] else Flatten(parts[..|parts| - 1]) + parts[|parts| - 1]
  }

  /** One project's part of the listing: its subtree matches, each once, then the IIS Express folders. */
  ghost predicate IsPart(t: Tree, o: General, myDocs: Path, dir: Path, part: seq<Path>) {
    var iis := IisFolders(t, o, myDocs);
    && |iis| <= |part|
    && part[|part| - |iis|..] == iis
    && Lists(part[..|part| - |iis|], MatchingBelow(t, o, dir))
    && Distinctive(part[..|part| - |iis|])
  }

  /** GetIISExpressLogsFolder: the folder when it exists. */
  method GetIisExpressLogsFolder(vol: Volume, myDocs: Path) returns (r: Option<Path>)
    ensures r == if IsDir(vol.nodes, IisExpressLogsPath(myDocs)) then Some(IisExpressLogsPath(myDocs)) else None
  {
    var fullPath := IisExpressLogsPath(myDocs);
    var present := vol.DirectoryExists(fullPath);
    r := if present then Some(fullPath) else None;
  }

  /** GetIISExpressTraceLogFilesFolder: the folder when it exists. */
  method GetIisExpressTraceLogFilesFolder(vol: Volume, myDocs: Path) returns (r: Option<Path>)
    ensures r == if IsDir(vol.nodes, IisExpressTraceLogFilesPath(myDocs)) then Some(IisExpressTraceLogFilesPath(myDocs)) else None
  {
    var fullPath := IisExpressTraceLogFilesPath(myDocs);
    var present := vol.DirectoryExists(fullPath);
    r := if present then Some(fullPath) else None;
  }

  /** Where keeps a listing a listing. */
  lemma MatchingLists(o: General, s: seq<Path>, elems: set<Path>)
    requires Lists(s, elems)
    ensures Lists(Matching(o, s), set q | q in elems && Selected(o, q))
  {
  }

  /** The IIS Express part of one iteration of GetDeletables. */
  method IisPart(vol: Volume, o: General, myDocs: Path) returns (iis: seq<Path>)
    ensures iis == IisFolders(vol.nodes, o, myDocs)
  {
    iis := [];
    if o.deleteIisExpressLogsFolder {
      var folder := GetIisExpressLogsFolder(vol, myDocs);
      if folder.Some? {
        iis := iis + [folder.value];
      }
    }
    if o.deleteIisExpressTraceLogFilesFolder {
      var folder := GetIisExpressTraceLogFilesFolder(vol, myDocs);
      if folder.Some? {
        iis := iis + [folder.value];
      }
    }
  }

  lemma PartOf(t: Tree, o: General, myDocs: Path, dir: Path, found: seq<Path>, iis: seq<Path>)
    requires Lists(found, MatchingBelow(t, o, dir)) && Distinctive(found) && iis == IisFolders(t, o, myDocs)
    ensures IsPart(t, o, myDocs, dir, found + iis)
    ensures multiset(found + iis) == multiset(MatchingBelow(t, o, dir)) + multiset(iis)
  {
    var result := found + iis;
    assert result[..|found|] == found && result[|found|..] == iis;
    ListsMultiset(found, MatchingBelow(t, o, dir));
  }

  /** One iteration of GetDeletables: None when the project directory cannot be enumerated (the call throws). */
  method ProjectPart(vol: Volume, o: General, myDocs: Path, p: Project) returns (part: Option<seq<Path>>)
    requires vol.Valid()
    ensures part.None? <==> !(ProjectDirectory(p).Some? && IsDir(vol.nodes, ProjectDirectory(p).value))
    ensures part.Some? ==> IsPart(vol.nodes, o, myDocs, ProjectDirectory(p).value, part.value)
    ensures part.Some? ==>
              multiset(part.value) == multiset(MatchingBelow(vol.nodes, o, ProjectDirectory(p).value)) + multiset(IisFolders(vol.nodes, o, myDocs))
  {
    var projectDirectory := ProjectDirectory(p);
    if projectDirectory.None? {
      return None;
    }
    var all := vol.GetDirectories(projectDirectory.value, true);
    if all.None? {
      return None;
    }
    var matches := Matching(o, all.value);
    MatchingLists(o, all.value, DirsBelow(vol.nodes, projectDirectory.value));
    DistinctiveOfDistinctPaths(matches);
    DistinctOfDistinctive(matches);
    var found := Distinct(matches);
    var iis := IisPart(vol, o, myDocs);
    PartOf(vol.nodes, o, myDocs, projectDirectory.value, found, iis);
    part := Some(found + iis);
  }

  lemma ListingStep(t: Tree, o: General, myDocs: Path, projects: seq<Project>, i: nat, parts: seq<seq<Path>>, part: seq<Path>)
    requires i < |projects| && |parts| == i
    requires ProjectDirectory(projects[i]).Some?
    requires multiset(part) == multiset(MatchingBelow(t, o, ProjectDirectory(projects[i]).value)) + multiset(IisFolders(t, o, myDocs))
    requires PartsFor(t, o, myDocs, projects[..i], parts)
    requires IsDir(t, ProjectDirectory(projects[i]).value) && IsPart(t, o, myDocs, ProjectDirectory(projects[i]).value, part)
    ensures Flatten(parts + [part]) == Flatten(parts) + part
    ensures Expected(t, o, myDocs, projects[..i + 1]) == Expected(t, o, myDocs, projects[..i]) + multiset(part)
    ensures PartsFor(t, o, myDocs, projects[..i + 1], parts + [part])
  {
    assert (parts + [part])[..i] == parts;
    assert projects[..i + 1][..i] == projects[..i];
    PartsForStep(t, o, myDocs, projects[..i + 1], parts + [part]);
  }

  lemma PartsForStep(t: Tree, o: General, myDocs: Path, projects: seq<Project>, parts: seq<seq<Path>>)
    requires |projects| == |parts| && projects != []
    requires PartsFor(t, o, myDocs, projects[..|projects| - 1], parts[..|parts| - 1])
    requires var p := projects[|projects| - 1];
      ProjectDirectory(p).Some? && IsDir(t, ProjectDirectory(p).value) &&
      IsPart(t, o, myDocs, ProjectDirectory(p).value, parts[|parts| - 1])
    ensures PartsFor(t, o, myDocs, projects, parts)
  {
  }

  /** The parts of the projects, project by project. */
  ghost predicate PartsFor(t: Tree, o: General, myDocs: Path, projects: seq<Project>, parts: seq<seq<Path>>)
    decreases |projects|
  {
    && |parts| == |projects|
    && (projects != [] ==>
          var p := projects[|projects| - 1];
          && PartsFor(t, o, myDocs, projects[..|projects| - 1], parts[..|parts| - 1])
          && ProjectDirectory(p).Some? && IsDir(t, ProjectDirectory(p).value)
          && IsPart(t, o, myDocs, ProjectDirectory(p).value, parts[|parts| - 1]))
  }

  lemma {:induction false} PartsForEach(t: Tree, o: General, myDocs: Path, projects: seq<Project>, parts: seq<seq<Path>>)
    requires PartsFor(t, o, myDocs, projects, parts)
    ensures |parts| == |projects|
    ensures forall i :: 0 <= i < |projects| ==>
              ProjectDirectory(projects[i]).Some? && IsDir(t, ProjectDirectory(projects[i]).value) &&
              IsPart(t, o, myDocs, ProjectDirectory(projects[i]).value, parts[i])
    decreases |projects|
  {
    if projects != [] {
      var n := |projects| - 1;
      PartsForEach(t, o, myDocs, projects[..n], parts[..n]);
      assert forall i :: 0 <= i < n ==> projects[..n][i] == projects[i] && parts[..n][i] == parts[i];
    }
  }

  /** The listing after the last project. */
  lemma ListingDone(t: Tree, o: General, myDocs: Path, projects: seq<Project>, parts: seq<seq<Path>>, listing: seq<Path>)
    requires PartsFor(t, o, myDocs, projects[..|projects|], parts) && listing == Flatten(parts)
    requires multiset(listing) == Expected(t, o, myDocs, projects[..|projects|])
    ensures Discoverable(t, projects)
    ensures multiset(listing) == Expected(t, o, myDocs, projects)
    ensures forall q :: q in listing <==> IsCandidate(t, o, myDocs, projects, q)
    ensures forall q :: q in listing ==> IsDir(t, q)
    ensures |parts| == |projects|
    ensures forall i :: 0 <= i < |projects| ==> IsPart(t, o, myDocs, ProjectDirectory(projects[i]).value, parts[i])
  {
    assert projects[..|projects|] == projects;
    ListingFacts(t, o, myDocs, projects, parts, listing);
  }

  lemma ListingFacts(t: Tree, o: General, myDocs: Path, projects: seq<Project>, parts: seq<seq<Path>>, listing: seq<Path>)
    requires PartsFor(t, o, myDocs, projects, parts) && listing == Flatten(parts)
    requires multiset(listing) == Expected(t, o, myDocs, projects)
    ensures Discoverable(t, projects)
    ensures forall q :: q in listing <==> IsCandidate(t, o, myDocs, projects, q)
    ensures forall q :: q in listing ==> IsDir(t, q)
    ensures forall i :: 0 <= i < |projects| ==> IsPart(t, o, myDocs, ProjectDirectory(projects[i]).value, parts[i])
  {
    PartsForEach(t, o, myDocs, projects, parts);
    PartsDiscoverable(t, o, myDocs, projects, parts);
    ExpectedAreCandidates(t, o, myDocs, projects);
    forall q ensures q in listing <==> IsCandidate(t, o, myDocs, projects, q) {
      assert q in listing <==> q in multiset(listing);
    }
    forall q | q in listing ensures IsDir(t, q) {
      CandidateIsDir(t, o, myDocs, projects, q);
    }
  }

  /** A project list with a part for every project is discoverable. */
  lemma PartsDiscoverable(t: Tree, o: General, myDocs: Path, projects: seq<Project>, parts: seq<seq<Path>>)
    requires forall i :: 0 <= i < |projects| ==> ProjectDirectory(projects[i]).Some? && IsDir(t, ProjectDirectory(projects[i]).value)
    ensures Discoverable(t, projects)
  {
    forall p | p in projects ensures ProjectDirectory(p).Some? && IsDir(t, ProjectDirectory(p).value) {
      var k :| 0 <= k < |projects| && projects[k] == p;
    }
  }

  /** Every candidate is an existing directory. */
  lemma CandidateIsDir(t: Tree, o: General, myDocs: Path, projects: seq<Project>, q: Path)
    requires IsCandidate(t, o, myDocs, projects, q)
    ensures IsDir(t, q)
  {
  }

  /** The part of project i, appended to the parts of the projects before it; None when the project has no folder. */
  method NextPart(vol: Volume, o: General, myDocs: Path, projects: seq<Project>, i: nat, ghost parts: seq<seq<Path>>)
    returns (part: Option<seq<Path>>)
    requires vol.Valid() && i < |projects| && |parts| == i
    requires PartsFor(vol.nodes, o, myDocs, projects[..i], parts)
    ensures part.None? ==> !Discoverable(vol.nodes, projects)
    ensures part.Some? ==> Flatten(parts + [part.value]) == Flatten(parts) + part.value
    ensures part.Some? ==>
              Expected(vol.nodes, o, myDocs, projects[..i + 1]) == Expected(vol.nodes, o, myDocs, projects[..i]) + multiset(part.value)
    ensures part.Some? ==> PartsFor(vol.nodes, o, myDocs, projects[..i + 1], parts + [part.value])
  {
    part := ProjectPart(vol, o, myDocs, projects[i]);
    if part.None? {
      assert projects[i] in projects;
    } else {
      ListingStep(vol.nodes, o, myDocs, projects, i, parts, part.value);
    }
  }

  /**
   * GetDeletables: the parts of the projects in project order. None when a project directory is
   * missing: the enumeration throws and the exception leaves the command.
   */
  method GetDeletables(vol: Volume, o: General, myDocs: Path, projects: seq<Project>)
    returns (r: Option<seq<Path>>, ghost parts: seq<seq<Path>>)
    requires vol.Valid()
    ensures r.None? <==> !Discoverable(vol.nodes, projects)
    ensures r.Some? ==> multiset(r.value) == Expected(vol.nodes, o, myDocs, projects)
    ensures r.Some? ==> forall q :: q in r.value <==> IsCandidate(vol.nodes, o, myDocs, projects, q)
    ensures r.Some? ==> forall q :: q in r.value ==> IsDir(vol.nodes, q)
    ensures r.Some? ==> |parts| == |projects| && r.value == Flatten(parts) &&
                        forall i :: 0 <= i < |projects| ==> IsPart(vol.nodes, o, myDocs, ProjectDirectory(projects[i]).value, parts[i])
  {
    ghost var t := vol.nodes;
    var deletables: seq<Path> := [];
    parts := [];
    for i := 0 to |projects|
      invariant |parts| == i && deletables == Flatten(parts)
      invariant PartsFor(t, o, myDocs, projects[..i], parts)
      invariant multiset(deletables) == Expected(t, o, myDocs, projects[..i])
    {
      var part := NextPart(vol, o, myDocs, projects, i, parts);
      if part.None? {
        return None, [];
      }
      deletables := deletables + part.value;
      parts := parts + [part.value];
    }
    ListingDone(t, o, myDocs, projects, parts, deletables);
    r := Some(deletables);
  }

  // ---------------------------------------------------------------- the command

  /** One pass: discovery, then the two-phase delete over what it found. */
  function Pass(t: Tree, locked: set<Path>, o: General, myDocs: Path, underScc: string -> bool, projects: seq<Project>): (r: Tree)
    ensures forall p :: p in r ==> p in t && r[p] == t[p]
    ensures WellFormed(t) ==> WellFormed(r)
  {
    Cleaned(t, CandidateSet(t, o, myDocs, projects), underScc, locked)
  }

  /** What ExecuteAsync ends with. */
  datatype RunResult =
    | NoProjects                     // nothing to clean: reported, nothing deleted
    | Aborted                        // a project directory was missing: discovery threw
    | Done(ranDefaultClean: bool)    // both passes ran; the native clean ran after them when asked for

  lemma CandidateSetOfListing(t: Tree, o: General, myDocs: Path, projects: seq<Project>, listing: seq<Path>)
    requires forall q :: q in listing <==> IsCandidate(t, o, myDocs, projects, q)
    requires forall q :: q in listing ==> IsDir(t, q)
    ensures Elems(listing) == CandidateSet(t, o, myDocs, projects)
  {
  }

  /**
   * ExecuteAsync: the loaded projects with a path; with none, nothing happens. Otherwise two
   * passes, each discovering afresh, then the native clean when RunDefaultCleanup is set.
   */
  method Execute(vol: Volume, o: General, myDocs: Path, underScc: string -> bool, allProjects: seq<Project>)
    returns (result: RunResult)
    requires vol.Valid()
    modifies vol
    ensures vol.Valid()
    ensures result == NoProjects <==> LoadedProjects(allProjects) == []
    ensures result == NoProjects ==> vol.nodes == old(vol.nodes)
    ensures result.Done? ==> result.ranDefaultClean == o.runDefaultCleanup
    ensures result.Done? ==>
              var first := Pass(old(vol.nodes), vol.locked, o, myDocs, underScc, LoadedProjects(allProjects));
              vol.nodes == Pass(first, vol.locked, o, myDocs, underScc, LoadedProjects(allProjects))
    ensures result == Aborted ==>
              vol.nodes == if Discoverable(old(vol.nodes), LoadedProjects(allProjects))
                           then Pass(old(vol.nodes), vol.locked, o, myDocs, underScc, LoadedProjects(allProjects))
                           else old(vol.nodes)
    ensures result == Aborted <==>
              (LoadedProjects(allProjects) != [] &&
               (!Discoverable(old(vol.nodes), LoadedProjects(allProjects)) ||
                !Discoverable(Pass(old(vol.nodes), vol.locked, o, myDocs, underScc, LoadedProjects(allProjects)), LoadedProjects(allProjects))))
  {
    var projects := LoadedProjects(allProjects);
    if |projects| == 0 {
      return NoProjects;
    }
    ghost var t := vol.nodes;
    var first, _ := GetDeletables(vol, o, myDocs, projects);
    if first.None? {
      return Aborted;
    }
    CandidateSetOfListing(t, o, myDocs, projects, first.value);
    var completed, reports := DeleteFiles(vol, first.value, underScc);
    assert completed;
    ghost var mid := vol.nodes;
    var second, _ := GetDeletables(vol, o, myDocs, projects);
    if second.None? {
      return Aborted;
    }
    CandidateSetOfListing(mid, o, myDocs, projects, second.value);
    completed, reports := DeleteFiles(vol, second.value, underScc);
    assert completed;
    result := Done(o.runDefaultCleanup);
  }

  /**
   * Without anything recreating files in between, the second pass deletes nothing: every folder
   * it finds was a candidate of the first pass.
   */
  lemma SecondPassRemovesNothing(t: Tree, locked: set<Path>, o: General, myDocs: Path, underScc: string -> bool, projects: seq<Project>)
    ensures var first := Pass(t, locked, o, myDocs, underScc, projects);
      Pass(first, locked, o, myDocs, underScc, projects) == first
  {
    var c := CandidateSet(t, o, myDocs, projects);
    var first := Pass(t, locked, o, myDocs, underScc, projects);
    var s := Sweep(t, c, underScc, locked);
    SweepRemovesOnlyFiles(t, c, underScc, locked);
    PruneKeepsFilesAndClosure(s, locked, c);
    assert forall q :: IsDir(first, q) ==> IsDir(t, q);
    assert CandidateSet(first, o, myDocs, projects) <= c;
    CleanedIdempotent(t, c, CandidateSet(first, o, myDocs, projects), underScc, locked);
  }
}
