/**
 * The older Delete Output Folders command: for every project of the solution, list the
 * directories named bin or obj anywhere under its directory, then delete each of them with its
 * contents (DirectoryInfo.Delete(true)), going on past the ones that fail.
 */
module DeleteOutputFolders {
  import opened Wrappers
  import opened Paths
  import opened FileSystem
  import opened Workspace

  const Bin: Name := "bin"
  const Obj: Name := "obj"

  /** DirectoryInfo.Name is bin or obj. */
  predicate IsOutputDir(q: Path) {
    q != [] && (q[|q| - 1] == Bin || q[|q| - 1] == Obj)
  }

  /** The candidates of a project: every directory strictly under its directory named exactly bin or obj. */
  function OutputDirs(t: Tree, dir: Path): set<Path> {
    set q | q in DirsBelow(t, dir) && IsOutputDir(q)
  }

  /** The Where filter over the directory listing, in listing order. */
  function OutputMatching(s: seq<Path>): (r: seq<Path>)
    ensures forall q :: q in r <==> q in s && IsOutputDir(q)
    ensures (forall i, j :: 0 <= i < j < |s| ==> s[i] != s[j]) ==> forall i, j :: 0 <= i < j < |r| ==> r[i] != r[j]
  {
    if s == [] then []
    else
      var rest := OutputMatching(s[..|s| - 1]);
      var q := s[|s| - 1];
      assert s == s[..|s| - 1] + [q];
      if IsOutputDir(q) then rest + [q] else rest
  }

  /**
   * What deleting every candidate of dirs recursively removes, in any order: each entry at or under
   * a candidate with nothing at or under it that refuses deletion.
   */
  function OutputRemoval(t: Tree, locked: set<Path>, dirs: set<Path>): set<Path> {
    set q | q in t.Keys && Unlocked(t, locked, q) && exists d :: d in dirs && Within(d, q)
  }

  /** The recursive delete of one candidate found earlier: a no-op once the folder is gone. */
  function DeleteTree(t: Tree, locked: set<Path>, d: Path): Tree {
    if IsDir(t, d) then t - RecursiveDeletion(t, locked, d) else t
  }

  /**
   * Deleting one more candidate after the earlier ones is removing the candidates together: the
   * result of a project does not depend on the order of its candidates.
   */
  lemma OutputRemovalStep(t: Tree, locked: set<Path>, done: set<Path>, d: Path)
    requires IsDir(t, d)
    ensures DeleteTree(t - OutputRemoval(t, locked, done), locked, d) == t - OutputRemoval(t, locked, done + {d})
  {
    var gone := OutputRemoval(t, locked, done);
    var u := t - gone;
    if IsDir(u, d) {
      RemovalKeepsUnlocked(t, locked, done);
      assert RecursiveDeletion(u, locked, d) == OutputRemoval(t, locked, {d}) - gone;
    } else {
      RemovedBelowRemoved(t, locked, done, d);
    }
    assert OutputRemoval(t, locked, done + {d}) == gone + OutputRemoval(t, locked, {d});
  }

  /** Removing entries that accept deletion changes no other entry's Unlocked. */
  lemma RemovalKeepsUnlocked(t: Tree, locked: set<Path>, done: set<Path>)
    ensures var u := t - OutputRemoval(t, locked, done);
      forall q :: q in u ==> (Unlocked(u, locked, q) <==> Unlocked(t, locked, q))
  {
    var gone := OutputRemoval(t, locked, done);
    var u := t - gone;
    forall q | q in u ensures Unlocked(u, locked, q) <==> Unlocked(t, locked, q) {
      forall r | r in t && Within(q, r) && Unlocked(u, locked, q) ensures r !in locked {
        if r in gone {
          assert Within(r, r);
        }
      }
    }
  }

  /** A candidate already removed with an earlier one brings nothing new. */
  lemma RemovedBelowRemoved(t: Tree, locked: set<Path>, done: set<Path>, d: Path)
    requires IsDir(t, d) && d in OutputRemoval(t, locked, done)
    ensures OutputRemoval(t, locked, {d}) <= OutputRemoval(t, locked, done)
  {
    var e :| e in done && Within(e, d);
    forall q | q in OutputRemoval(t, locked, {d}) ensures q in OutputRemoval(t, locked, done) {
      WithinTransitive(e, d, q);
    }
  }


  /** The state of the command after some projects: the tree, whether no exception has left yet, and each project's final idx. */
  datatype RunState = RunState(tree: Tree, completed: bool, attempts: seq<nat>)

  /**
   * The whole command, project by project. It stops at a project with no path or whose directory
   * is missing: the exception leaves the command.
   */
  function Run(t: Tree, locked: set<Path>, projects: seq<Project>): (r: RunState)
    ensures |r.attempts| <= |projects|
    ensures r.completed ==> |r.attempts| == |projects|
  {
    if projects == [] then RunState(t, true, [])
    else
      var s := Run(t, locked, projects[..|projects| - 1]);
      var dir := ProjectDirectory(projects[|projects| - 1]);
      if !s.completed || dir.None? || !IsDir(s.tree, dir.value) then RunState(s.tree, false, s.attempts)
      else
        var u := s.tree;
        RunState(u - OutputRemoval(u, locked, OutputDirs(u, dir.value)), true, s.attempts + [|OutputDirs(u, dir.value)|])
  }

  /** The tree each project starts from. */
  function Before(t: Tree, locked: set<Path>, projects: seq<Project>, i: nat): Tree
    requires i <= |projects|
  {
    Run(t, locked, projects[..i]).tree
  }

  lemma RunStep(t: Tree, locked: set<Path>, projects: seq<Project>, i: nat)
    requires i < |projects| && Run(t, locked, projects[..i]).completed
    ensures var s := Run(t, locked, projects[..i]);
      var u := s.tree;
      var dir := ProjectDirectory(projects[i]);
      Run(t, locked, projects[..i + 1]) ==
        if dir.None? || !IsDir(u, dir.value) then RunState(u, false, s.attempts)
        else RunState(u - OutputRemoval(u, locked, OutputDirs(u, dir.value)), true, s.attempts + [|OutputDirs(u, dir.value)|])
  {
    assert projects[..i + 1][..i] == projects[..i];
  }

  /** Once an exception has left the command, the later projects change nothing. */
  lemma {:induction false} RunAbortSticks(t: Tree, locked: set<Path>, projects: seq<Project>, i: nat)
    requires i <= |projects| && !Run(t, locked, projects[..i]).completed
    ensures Run(t, locked, projects) == Run(t, locked, projects[..i])
    decreases |projects|
  {
    if i < |projects| {
      var init := projects[..|projects| - 1];
      assert init[..i] == projects[..i];
      RunAbortSticks(t, locked, init, i);
    } else {
      assert projects[..i] == projects;
    }
  }


  lemma BeforeLast(t: Tree, locked: set<Path>, projects: seq<Project>)
    requires projects != []
    ensures Before(t, locked, projects, |projects| - 1) == Run(t, locked, projects[..|projects| - 1]).tree
  {
  }

  /** idx ends at the number of candidates of each project that was reached: every one of them was attempted. */
  lemma {:induction false} AttemptsCountCandidates(t: Tree, locked: set<Path>, projects: seq<Project>)
    ensures var s := Run(t, locked, projects);
      forall i :: 0 <= i < |s.attempts| ==>
        ProjectDirectory(projects[i]).Some? &&
        s.attempts[i] == |OutputDirs(Before(t, locked, projects, i), ProjectDirectory(projects[i]).value)|
    decreases |projects|
  {
    if projects != [] {
      var n := |projects| - 1;
      AttemptsCountCandidates(t, locked, projects[..n]);
      AttemptsStep(t, locked, projects);
      var s := Run(t, locked, projects);
      forall i | 0 <= i < |s.attempts|
        ensures ProjectDirectory(projects[i]).Some? &&
                s.attempts[i] == |OutputDirs(Before(t, locked, projects, i), ProjectDirectory(projects[i]).value)|
      {
        if i < n {
          BeforePrefix(t, locked, projects, n, i);
        } else {
          BeforeLast(t, locked, projects);
        }
      }
    }
  }

  /** The attempts after the last project: one more count exactly when the run reached its folder. */
  lemma AttemptsStep(t: Tree, locked: set<Path>, projects: seq<Project>)
    requires projects != []
    ensures var before := Run(t, locked, projects[..|projects| - 1]);
      var dir := ProjectDirectory(projects[|projects| - 1]);
      Run(t, locked, projects).attempts ==
        if before.completed && dir.Some? && IsDir(before.tree, dir.value) then before.attempts + [|OutputDirs(before.tree, dir.value)|]
        else before.attempts
  {
  }

  /** The tree project i starts from is the same in any longer prefix of the projects. */
  lemma BeforePrefix(t: Tree, locked: set<Path>, projects: seq<Project>, n: nat, i: nat)
    requires i <= n <= |projects|
    ensures Before(t, locked, projects, i) == Before(t, locked, projects[..n], i)
  {
    assert projects[..n][..i] == projects[..i];
  }


  /** One project of the command; idx counts the deletes attempted. */
  method DeleteProjectOutputs(vol: Volume, dir: Path) returns (idx: nat)
    requires vol.Valid() && IsDir(vol.nodes, dir)
    modifies vol
    ensures vol.Valid()
    ensures vol.nodes == old(vol.nodes) - OutputRemoval(old(vol.nodes), vol.locked, OutputDirs(old(vol.nodes), dir))
    ensures idx == |OutputDirs(old(vol.nodes), dir)|
  {
    ghost var t := vol.nodes;
    var listing := vol.GetDirectories(dir, true);
    var deletables := OutputMatching(listing.value);
    assert Lists(deletables, OutputDirs(t, dir));
    ListsCardinality(deletables, OutputDirs(t, dir));
    idx := 0;
    for j := 0 to |deletables|
      invariant vol.Valid()
      invariant idx == j
      invariant vol.nodes == t - OutputRemoval(t, vol.locked, Elems(deletables[..j]))
    {
      var d := deletables[j];
      NextInList(deletables, OutputDirs(t, dir), j);
      idx := idx + 1;
      var ok := vol.DeleteDirectory(d, true);
      OutputRemovalStep(t, vol.locked, Elems(deletables[..j]), d);
    }
    assert deletables[..|deletables|] == deletables;
    assert Elems(deletables) == OutputDirs(t, dir);
  }

  /**
   * ExecuteAsync: every project of the solution, loaded or not, in order. attempts[i] is the final
   * idx of project i: the number of its candidates, all of which were attempted.
   */
  method Execute(vol: Volume, projects: seq<Project>) returns (completed: bool, attempts: seq<nat>)
    requires vol.Valid()
    modifies vol
    ensures vol.Valid()
    ensures RunState(vol.nodes, completed, attempts) == Run(old(vol.nodes), vol.locked, projects)
  {
    ghost var t := vol.nodes;
    attempts := [];
    for i := 0 to |projects|
      invariant vol.Valid()
      invariant RunState(vol.nodes, true, attempts) == Run(t, vol.locked, projects[..i])
    {
      RunStep(t, vol.locked, projects, i);
      var directory := ProjectDirectory(projects[i]);
      if directory.None? {
        RunAbortSticks(t, vol.locked, projects, i + 1);
        completed := false;
        return;
      }
      var present := vol.DirectoryExists(directory.value);
      if !present {
        RunAbortSticks(t, vol.locked, projects, i + 1);
        completed := false;
        return;
      }
      var idx := DeleteProjectOutputs(vol, directory.value);
      attempts := attempts + [idx];
    }
    assert projects[..|projects|] == projects;
    completed := true;
  }

  // ---------------------------------------------------------------- what the command promises

  /** A successful Delete(true) leaves nothing at or under the candidate. */
  lemma SuccessfulDeleteRemovesSubtree(t: Tree, locked: set<Path>, d: Path)
    requires IsDir(t, d) && Unlocked(t, locked, d)
    ensures forall q :: Within(d, q) ==> q !in DeleteTree(t, locked, d)
  {
    forall q | q in t && Within(d, q) ensures q in RecursiveDeletion(t, locked, d) {
      forall r | r in t && Within(q, r) ensures r !in locked {
        WithinTransitive(d, q, r);
      }
    }
  }

  /** An entry under no candidate is left as it was. */
  lemma OutsideCandidatesUnchanged(t: Tree, locked: set<Path>, dirs: set<Path>, p: Path)
    requires p in t && forall d :: d in dirs ==> !Within(d, p)
    ensures p in t - OutputRemoval(t, locked, dirs) && (t - OutputRemoval(t, locked, dirs))[p] == t[p]
  {
  }

  /** An entry that refuses deletion survives, and so does every directory above it. */
  lemma LockedEntrySurvives(t: Tree, locked: set<Path>, dirs: set<Path>, p: Path)
    requires p in t && p in locked
    ensures forall a :: a in t && Within(a, p) ==> a in t - OutputRemoval(t, locked, dirs)
  {
    forall a | a in t && Within(a, p) ensures !Unlocked(t, locked, a) {
      assert p in t && Within(a, p) && p in locked;
    }
  }

  /** A project's result removes only entries at or under its candidates, and never a locked one. */
  lemma OutputRemovalInside(t: Tree, locked: set<Path>, dir: Path, q: Path)
    requires q in OutputRemoval(t, locked, OutputDirs(t, dir))
    ensures q !in locked && Below(dir, q)
    ensures exists d :: d in t && t[d] == Dir && IsOutputDir(d) && Within(d, q)
  {
    var d :| d in OutputDirs(t, dir) && Within(d, q);
    assert Within(q, q);
    assert |dir| < |d| <= |q| && q[..|dir|] == d[..|dir|];
  }
}
