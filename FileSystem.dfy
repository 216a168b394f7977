/**
 * The disk the commands work on: a map from absolute path to node, closed under parent, held by a
 * Volume object whose methods are the System.IO calls the commands make (DirectoryInfo.GetDirectories,
 * DirectoryInfo.GetFiles, FileInfo.Delete, DirectoryInfo.Delete). The paths that refuse deletion
 * (a file in use, a read-only entry) are a fixed set `locked`: deleting one of them fails.
 */
module FileSystem {
  import opened Wrappers
  import opened Paths

  datatype Node = File | Dir

  type Tree = map<Path, Node>

  predicate IsDir(t: Tree, p: Path) {
    p in t && t[p] == Dir
  }

  predicate IsFile(t: Tree, p: Path) {
    p in t && t[p] == File
  }

  /** Every entry other than the root sits in a directory of the tree. */
  predicate Closed(t: Tree) {
    forall p :: p in t && p != [] ==> IsDir(t, Parent(p))
  }

  predicate WellFormed(t: Tree) {
    Closed(t) && forall p :: p in t ==> ValidPath(p)
  }

  /** The entries at or under a. */
  function Subtree(t: Tree, a: Path): set<Path> {
    set q | q in t.Keys && Within(a, q)
  }

  /** What GetDirectories("*", AllDirectories) returns: every directory strictly under a. */
  function DirsBelow(t: Tree, a: Path): set<Path> {
    set q | q in t.Keys && t[q] == Dir && Below(a, q)
  }

  /** What GetFiles("*", AllDirectories) returns: every file strictly under a. */
  function FilesBelow(t: Tree, a: Path): set<Path> {
    set q | q in t.Keys && t[q] == File && Below(a, q)
  }

  /** What GetDirectories("*", TopDirectoryOnly) returns. */
  function ChildDirs(t: Tree, a: Path): set<Path> {
    set q | q in t.Keys && t[q] == Dir && ChildOf(a, q)
  }

  /** What GetFiles("*", TopDirectoryOnly) returns. */
  function ChildFiles(t: Tree, a: Path): set<Path> {
    set q | q in t.Keys && t[q] == File && ChildOf(a, q)
  }

  /** No entry at or under q refuses deletion. */
  predicate Unlocked(t: Tree, locked: set<Path>, q: Path) {
    forall r :: r in t && Within(q, r) ==> r !in locked
  }

  /**
   * What DirectoryInfo.Delete(true) removes: every entry at or under a whose own subtree holds
   * nothing that refuses deletion. (The recursive delete goes on past a failing entry and throws
   * at the end, leaving that entry and every directory above it.)
   */
  function RecursiveDeletion(t: Tree, locked: set<Path>, a: Path): set<Path> {
    set q | q in t.Keys && Within(a, q) && Unlocked(t, locked, q)
  }

  /** RecursiveDeletion takes whole subtrees: with an entry, everything under it. */
  lemma RecursiveDeletionDownward(t: Tree, locked: set<Path>, a: Path)
    ensures forall p, q :: p in RecursiveDeletion(t, locked, a) && q in t && Within(p, q) ==>
      q in RecursiveDeletion(t, locked, a)
  {
    forall p, q | p in RecursiveDeletion(t, locked, a) && q in t && Within(p, q)
      ensures q in RecursiveDeletion(t, locked, a)
    {
      WithinTransitive(a, p, q);
      forall r | r in t && Within(q, r) ensures r !in locked {
        WithinTransitive(p, q, r);
      }
    }
  }

  /** A sequence that lists a set: each element once, in some order. */
  ghost predicate Lists(s: seq<Path>, elems: set<Path>) {
    (forall i, j :: 0 <= i < j < |s| ==> s[i] != s[j]) &&
    (forall x :: x in s <==> x in elems)
  }

  function Elems(s: seq<Path>): set<Path> {
    set x | x in s
  }

  /** The next element of a listing is new, and joins the elements seen so far. */
  lemma NextInList(s: seq<Path>, elems: set<Path>, j: nat)
    requires Lists(s, elems) && j < |s|
    ensures s[j] in elems && s[j] !in Elems(s[..j])
    ensures Elems(s[..j + 1]) == Elems(s[..j]) + {s[j]}
  {
    assert s[..j + 1] == s[..j] + [s[j]];
  }

  /** A listing is empty exactly when the listed set is. */
  lemma ListsEmpty(s: seq<Path>, elems: set<Path>)
    requires Lists(s, elems)
    ensures s == [] <==> elems == {}
  {
    if s != [] {
      assert s[0] in elems;
    }
  }

  /** Dropping the last element of a listing lists the set without it. */
  lemma ListsInit(s: seq<Path>, elems: set<Path>)
    requires Lists(s, elems) && s != []
    ensures Lists(s[..|s| - 1], elems - {s[|s| - 1]})
  {
    var last := s[|s| - 1];
    var init := s[..|s| - 1];
    forall i, j | 0 <= i < j < |init| ensures init[i] != init[j] {
      assert init[i] == s[i] && init[j] == s[j];
    }
    forall x | x in init ensures x in elems && x != last {
      var k :| 0 <= k < |init| && init[k] == x;
      assert s[k] == x && k < |s| - 1;
    }
    forall x | x in elems && x != last ensures x in init {
      var k :| 0 <= k < |s| && s[k] == x;
      assert k != |s| - 1 && init[k] == x;
    }
  }

  lemma {:induction false} ListsCardinality(s: seq<Path>, elems: set<Path>)
    requires Lists(s, elems)
    ensures |s| == |elems|
    decreases |s|
  {
    if s == [] {
      ListsEmpty(s, elems);
    } else {
      var last := s[|s| - 1];
      ListsInit(s, elems);
      ListsCardinality(s[..|s| - 1], elems - {last});
      assert last in elems;
    }
  }

  /** A listing holds each element of the listed set exactly once. */
  lemma {:induction false} ListsMultiset(s: seq<Path>, elems: set<Path>)
    requires Lists(s, elems)
    ensures multiset(s) == multiset(elems)
    decreases |s|
  {
    if s == [] {
      ListsEmpty(s, elems);
    } else {
      var last := s[|s| - 1];
      var init := s[..|s| - 1];
      assert s == init + [last];
      ListsInit(s, elems);
      ListsMultiset(init, elems - {last});
      assert last in elems;
      assert elems == (elems - {last}) + {last};
    }
  }

  /** An ancestor of an entry of a closed tree is a directory of it. */
  lemma {:induction false} AncestorIsDir(t: Tree, a: Path, q: Path)
    requires Closed(t) && q in t && Below(a, q)
    ensures IsDir(t, a)
    decreases |q|
  {
    var p := Parent(q);
    assert IsDir(t, p);
    if |p| > |a| {
      assert p[..|a|] == q[..|a|];
      AncestorIsDir(t, a, p);
    } else {
      assert p == q[..|a|];
    }
  }

  lemma SubsetCardinality(a: set<Path>, b: set<Path>)
    requires a <= b
    ensures |a| <= |b|
  {
    if a != {} {
      var x :| x in a;
      SubsetCardinality(a - {x}, b - {x});
    }
  }

  /** Lists a finite set in an unspecified order (the order of a directory enumeration). */
  method Enumerate(elems: set<Path>) returns (s: seq<Path>)
    ensures Lists(s, elems)
  {
    s := [];
    var rest := elems;
    while rest != {}
      invariant rest <= elems
      invariant forall x :: x in s <==> x in elems && x !in rest
      invariant forall i, j :: 0 <= i < j < |s| ==> s[i] != s[j]
      decreases |rest|
    {
      var x :| x in rest;
      s := s + [x];
      rest := rest - {x};
    }
  }

  class Volume {
    var nodes: Tree
    const locked: set<Path>

    ghost predicate Valid()
      reads this
    {
      WellFormed(nodes)
    }

    constructor (nodes: Tree, locked: set<Path>)
      requires WellFormed(nodes)
      ensures Valid() && this.nodes == nodes && this.locked == locked
    {
      this.nodes := nodes;
      this.locked := locked;
    }

    /** Directory.Exists. */
    method DirectoryExists(p: Path) returns (b: bool)
      ensures b <==> IsDir(nodes, p)
    {
      b := p in nodes && nodes[p] == Dir;
    }

    /** DirectoryInfo.GetDirectories; None when the directory does not exist (it throws). */
    method GetDirectories(p: Path, recursive: bool) returns (r: Option<seq<Path>>)
      ensures r.None? <==> !IsDir(nodes, p)
      ensures r.Some? ==> Lists(r.value, if recursive then DirsBelow(nodes, p) else ChildDirs(nodes, p))
    {
      if !IsDir(nodes, p) {
        return None;
      }
      var ds := Enumerate(if recursive then DirsBelow(nodes, p) else ChildDirs(nodes, p));
      return Some(ds);
    }

    /** DirectoryInfo.GetFiles; None when the directory does not exist (it throws). */
    method GetFiles(p: Path, recursive: bool) returns (r: Option<seq<Path>>)
      ensures r.None? <==> !IsDir(nodes, p)
      ensures r.Some? ==> Lists(r.value, if recursive then FilesBelow(nodes, p) else ChildFiles(nodes, p))
    {
      if !IsDir(nodes, p) {
        return None;
      }
      var fs := Enumerate(if recursive then FilesBelow(nodes, p) else ChildFiles(nodes, p));
      return Some(fs);
    }

    /**
     * FileInfo.Delete: a missing file is no error; a directory or a file that refuses deletion
     * makes it throw (ok == false) and nothing changes.
     */
    method DeleteFile(p: Path) returns (ok: bool)
      requires Valid()
      modifies this
      ensures Valid()
      ensures ok <==> !(p in old(nodes) && (old(nodes)[p] == Dir || p in locked))
      ensures nodes == if ok then old(nodes) - {p} else old(nodes)
    {
      ok := !(p in nodes && (nodes[p] == Dir || p in locked));
      if ok {
        nodes := nodes - {p};
      }
    }

    /**
     * DirectoryInfo.Delete(recursive). Not recursive: only an existing, empty directory that does
     * not refuse deletion goes. Recursive: RecursiveDeletion goes, and the call succeeds only when
     * nothing in the subtree refused. A missing directory throws and nothing changes.
     */
    method DeleteDirectory(p: Path, recursive: bool) returns (ok: bool)
      requires Valid()
      modifies this
      ensures Valid()
      ensures !recursive ==>
        ok == (IsDir(old(nodes), p) && ChildDirs(old(nodes), p) == {} && ChildFiles(old(nodes), p) == {} && p !in locked) &&
        nodes == if ok then old(nodes) - {p} else old(nodes)
      ensures recursive ==>
        ok == (IsDir(old(nodes), p) && Unlocked(old(nodes), locked, p)) &&
        nodes == if IsDir(old(nodes), p) then old(nodes) - RecursiveDeletion(old(nodes), locked, p) else old(nodes)
    {
      if !IsDir(nodes, p) {
        return false;
      }
      if !recursive {
        ok := ChildDirs(nodes, p) == {} && ChildFiles(nodes, p) == {} && p !in locked;
        if ok {
          ghost var t := nodes;
          nodes := nodes - {p};
          forall q | q in nodes && q != [] ensures IsDir(nodes, Parent(q)) {
            assert IsDir(t, Parent(q));
            assert q in (if t[q] == Dir then ChildDirs(t, Parent(q)) else ChildFiles(t, Parent(q)));
          }
        }
      } else {
        ghost var t := nodes;
        var gone := RecursiveDeletion(nodes, locked, p);
        ok := Unlocked(nodes, locked, p);
        nodes := nodes - gone;
        RecursiveDeletionDownward(t, locked, p);
        forall q | q in nodes && q != [] ensures IsDir(nodes, Parent(q)) {
          assert IsDir(t, Parent(q)) && Within(Parent(q), q);
        }
      }
    }
  }
}
