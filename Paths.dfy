/**
 * Absolute paths and the strings .NET shows for them (DirectoryInfo.FullName, DirectoryInfo.Name,
 * Path.Combine, Path.GetDirectoryName, String.EndsWith).
 */
module Paths {
  /** One segment of a path: the name of a file or a directory. */
  type Name = string

  /** An absolute path: the names from the volume root down; [] is the root itself. */
  type Path = seq<Name>

  const Separator: char := '\\'
  const AltSeparator: char := '/'

  /** A name as the file system allows it: not empty and free of directory separators. */
  predicate ValidName(n: Name) {
    n != "" && Separator !in n && AltSeparator !in n
  }

  predicate ValidPath(p: Path) {
    forall i :: 0 <= i < |p| ==> ValidName(p[i])
  }

  /** FullName: every segment preceded by the separator. */
  function FullName(p: Path): (r: string)
    ensures |r| >= |p|
    ensures r == [] <==> p == []
  {
    if p == [] then "" else FullName(p[..|p| - 1]) + [Separator] + p[|p| - 1]
  }

  /** DirectoryInfo.Name / FileInfo.Name: the last segment. */
  function NameOf(p: Path): (r: Name)
    requires p != []
    ensures Parent(p) + [r] == p
  {
    p[|p| - 1]
  }

  /** Path.GetDirectoryName of a non-empty path. */
  function Parent(p: Path): (r: Path)
    requires p != []
    ensures |r| == |p| - 1 && Below(r, p)
  {
    p[..|p| - 1]
  }

  /** q is a or lies somewhere under a. */
  predicate Within(a: Path, q: Path) {
    |a| <= |q| && q[..|a|] == a
  }

  /** q lies strictly under a. */
  predicate Below(a: Path, q: Path) {
    |a| < |q| && q[..|a|] == a
  }

  /** q is an entry directly inside a. */
  predicate ChildOf(a: Path, q: Path) {
    |q| == |a| + 1 && q[..|a|] == a
  }

  /** String.EndsWith, as a plain suffix test. */
  predicate EndsWith(s: string, suffix: string) {
    |suffix| <= |s| && s[|s| - |suffix|..] == suffix
  }

  lemma WithinTransitive(a: Path, b: Path, c: Path)
    requires Within(a, b) && Within(b, c)
    ensures Within(a, c)
  {
    assert c[..|a|] == c[..|b|][..|a|];
  }

  /** Everything strictly under a lies within the child of a on the way down. */
  lemma BelowThroughChild(a: Path, q: Path)
    requires Below(a, q)
    ensures ChildOf(a, q[..|a| + 1]) && Within(q[..|a| + 1], q)
  {
    assert q[..|a| + 1][..|a|] == q[..|a|];
  }

  /** The full name of a child is its parent's full name, the separator and its name. */
  lemma FullNameAppend(p: Path, n: Name)
    ensures FullName(p + [n]) == FullName(p) + [Separator] + n
  {
    assert (p + [n])[..|p|] == p;
  }

  /** In a + separator + n, with n free of separators, the last separator stands just before n. */
  lemma LastSeparator(a: string, n: Name)
    requires Separator !in n
    ensures var s := a + [Separator] + n;
      s[|s| - |n| - 1] == Separator &&
      forall k :: |s| - |n| <= k < |s| ==> s[k] != Separator
  {
    var s := a + [Separator] + n;
    forall k | |s| - |n| <= k < |s| ensures s[k] != Separator {
      assert s[k] == n[k - |a| - 1];
    }
  }

  /** A separator followed by a separator-free name is recognised from the end of the string. */
  lemma {:induction false} LastSegmentUnique(a: string, n: Name, b: string, m: Name)
    requires Separator !in n && Separator !in m
    requires a + [Separator] + n == b + [Separator] + m
    ensures n == m && a == b
  {
    var s := a + [Separator] + n;
    assert s == b + [Separator] + m;
    LastSeparator(a, n);
    LastSeparator(b, m);
    assert |n| == |m|;
    assert n == s[|s| - |n|..];
    assert m == s[|s| - |m|..];
    assert a == s[..|a|];
    assert b == s[..|b|];
  }

  /** Distinct valid paths have distinct FullName strings. */
  lemma {:induction false} FullNameInjective(p: Path, q: Path)
    requires ValidPath(p) && ValidPath(q)
    requires FullName(p) == FullName(q)
    ensures p == q
    decreases |p|
  {
    if p != [] && q != [] {
      assert Separator !in p[|p| - 1] && Separator !in q[|q| - 1] by {
        assert ValidName(p[|p| - 1]) && ValidName(q[|q| - 1]);
      }
      LastSegmentUnique(FullName(Parent(p)), p[|p| - 1], FullName(Parent(q)), q[|q| - 1]);
      assert ValidPath(Parent(p)) by {
        forall i | 0 <= i < |Parent(p)| ensures ValidName(Parent(p)[i]) {
          assert Parent(p)[i] == p[i];
        }
      }
      assert ValidPath(Parent(q)) by {
        forall i | 0 <= i < |Parent(q)| ensures ValidName(Parent(q)[i]) {
          assert Parent(q)[i] == q[i];
        }
      }
      FullNameInjective(Parent(p), Parent(q));
      assert p == Parent(p) + [p[|p| - 1]];
      assert q == Parent(q) + [q[|q| - 1]];
    }
  }

  /** The suffix test on a file's FullName is the same test on its Name, for a suffix without separators. */
  lemma FullNameEndsWithIffNameEndsWith(p: Path, suffix: string)
    requires p != [] && ValidPath(p) && Separator !in suffix
    ensures EndsWith(FullName(p), suffix) <==> EndsWith(NameOf(p), suffix)
  {
    var n := NameOf(p);
    assert ValidName(p[|p| - 1]);
    var s := FullName(p);
    assert s == FullName(Parent(p)) + [Separator] + n;
    LastSeparator(FullName(Parent(p)), n);
    if EndsWith(s, suffix) {
      forall k | 0 <= k < |suffix| ensures s[|s| - |suffix| + k] == suffix[k] {
        assert s[|s| - |suffix|..][k] == suffix[k];
      }
      assert |suffix| <= |n|;
    }
    if |suffix| <= |n| {
      assert s[|s| - |suffix|..] == n[|n| - |suffix|..];
    }
  }
}
