/** The projects of the open solution, as the host reports them. */
module Workspace {
  import opened Wrappers
  import opened Paths

  /** A project: the full path of its project file ([] when the host reports none) and whether it is loaded. */
  datatype Project = Project(fullPath: Path, isLoaded: bool)

  /**
   * Path.GetDirectoryName(p.FullPath): the project's directory. With no path the call yields
   * null: None. What that does is up to the caller: the DirectoryInfo constructor of
   * DeleteOutputFolders rejects it, and in the cleanup base class only the Path.Combine calls of
   * the root-based flags do.
   */
  function ProjectDirectory(p: Project): (r: Option<Path>)
    ensures r.Some? <==> p.fullPath != []
    ensures r.Some? ==> ChildOf(r.value, p.fullPath)
  {
    if p.fullPath == [] then None else Some(Parent(p.fullPath))
  }

  /** The loaded projects with a non-empty path, in the host's order. */
  function LoadedProjects(ps: seq<Project>): (r: seq<Project>)
    ensures forall p :: p in r <==> p in ps && p.isLoaded && p.fullPath != []
    ensures |r| <= |ps|
  {
    if ps == [] then []
    else
      var rest := LoadedProjects(ps[..|ps| - 1]);
      var p := ps[|ps| - 1];
      assert ps == ps[..|ps| - 1] + [p];
      if p.isLoaded && p.fullPath != [] then rest + [p] else rest
  }
}
