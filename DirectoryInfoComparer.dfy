/**
 * DirectoryInfoComparer: directory identity by FullName, and the LINQ Distinct that uses it to
 * deduplicate discovered folders.
 */
module DirectoryInfoComparer {
  import opened Wrappers
  import opened Paths

  /** x?.FullName */
  function FullNameOrNull(x: Option<Path>): Option<string> {
    match x
    case None => None
    case Some(p) => Some(FullName(p))
  }

  /** Equals: string.Equals of the two FullName values, where two nulls are equal. */
  function Equals(x: Option<Path>, y: Option<Path>): (r: bool)
    ensures x.None? && y.None? ==> r
    ensures x.None? != y.None? ==> !r
  {
    FullNameOrNull(x) == FullNameOrNull(y)
  }

  /** On directories with valid paths, Equals is path identity. */
  lemma EqualsIffSamePath(x: Path, y: Path)
    requires ValidPath(x) && ValidPath(y)
    ensures Equals(Some(x), Some(y)) <==> x == y
  {
    if Equals(Some(x), Some(y)) {
      FullNameInjective(x, y);
    }
  }

  lemma EqualsIsEquivalence(x: Option<Path>, y: Option<Path>, z: Option<Path>)
    ensures Equals(x, x)
    ensures Equals(x, y) <==> Equals(y, x)
    ensures Equals(x, y) && Equals(y, z) ==> Equals(x, z)
  {
  }

  /** GetHashCode: the string hash of FullName; the string hash itself is left as a parameter. */
  function HashCode(stringHash: string -> int, p: Path): (h: int)
    ensures forall q :: Equals(Some(q), Some(p)) ==> h == stringHash(FullName(q))
  {
    stringHash(FullName(p))
  }

  /** Equal directories hash alike, whatever the string hash is. */
  lemma HashCodeAgreesWithEquals(stringHash: string -> int, x: Path, y: Path)
    requires Equals(Some(x), Some(y))
    ensures HashCode(stringHash, x) == HashCode(stringHash, y)
  {
  }

  /** The FullName values of a sequence of directories. */
  function FullNames(s: seq<Path>): set<string> {
    set x | x in s :: FullName(x)
  }

  /** No two entries are equal under the comparer (Equals on two directories compares FullName). */
  ghost predicate Distinctive(s: seq<Path>) {
    forall i, j :: 0 <= i < j < |s| ==> FullName(s[i]) != FullName(s[j])
  }

  /** Enumerable.Distinct(comparer): the first entry of each FullName, in order. */
  function Distinct(s: seq<Path>): (r: seq<Path>)
    ensures Distinctive(r)
    ensures forall x :: x in r ==> x in s
    ensures FullNames(r) == FullNames(s)
    ensures |r| <= |s|
  {
    if s == [] then []
    else
      var init := s[..|s| - 1];
      var x := s[|s| - 1];
      var r := Distinct(init);
      assert s == init + [x];
      assert FullNames(s) == FullNames(init) + {FullName(x)};
      if FullName(x) in FullNames(r) then r
      else
        assert FullNames(r + [x]) == FullNames(r) + {FullName(x)};
        r + [x]
  }

  /** Distinct leaves a sequence that already has no two equal entries as it is. */
  lemma {:induction false} DistinctOfDistinctive(s: seq<Path>)
    requires Distinctive(s)
    ensures Distinct(s) == s
  {
    if s != [] {
      var init := s[..|s| - 1];
      var x := s[|s| - 1];
      assert Distinctive(init);
      DistinctOfDistinctive(init);
      assert FullName(x) !in FullNames(init);
      assert s == init + [x];
    }
  }

  /** Directories with valid, pairwise different paths are Distinctive. */
  lemma DistinctiveOfDistinctPaths(s: seq<Path>)
    requires forall x :: x in s ==> ValidPath(x)
    requires forall i, j :: 0 <= i < j < |s| ==> s[i] != s[j]
    ensures Distinctive(s)
  {
    forall i, j | 0 <= i < j < |s| ensures FullName(s[i]) != FullName(s[j]) {
      if FullName(s[i]) == FullName(s[j]) {
        FullNameInjective(s[i], s[j]);
      }
    }
  }
}
