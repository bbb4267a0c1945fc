/** The path algebra of the Cobertura report: the base directories listed in
    `sources` and the class filenames made relative to them. */
module BasePaths {
  import Seqs
  import Strings
  import opened Coverage

  /** The document paths of one module, in dictionary order. */
  function DocumentKeys(documents: Documents): (r: seq<string>)
    ensures |r| == |documents|
    ensures forall i :: 0 <= i < |documents| ==> r[i] == documents[i].0
    decreases |documents|
  {
    if |documents| == 0 then [] else [documents[0].0] + DocumentKeys(documents[1..])
  }

  /** Every document path of the result, module after module (duplicates kept). */
  function DocumentPaths(modules: Modules): seq<string>
    decreases |modules|
  {
    if |modules| == 0 then [] else DocumentKeys(modules[0].1) + DocumentPaths(modules[1..])
  }

  /** The separator-delimited fragments of a path. */
  function Fragments(path: string): seq<string>
  {
    Strings.Split(path, Strings.PathSeparator)
  }

  function FragmentsOfAll(paths: seq<string>): (r: seq<seq<string>>)
    ensures |r| == |paths|
    ensures forall i :: 0 <= i < |paths| ==> r[i] == Fragments(paths[i])
  {
    seq(|paths|, i requires 0 <= i < |paths| => Fragments(paths[i]))
  }

  /** The first of the fragment lists with the fewest fragments (a stable
      ascending sort by length, then the head). */
  function Shortest(split: seq<seq<string>>): (s: seq<string>)
    requires |split| > 0
    ensures s in split
    ensures forall i :: 0 <= i < |split| ==> |s| <= |split[i]|
    decreases |split|
  {
    if |split| == 1 then split[0]
    else
      var rest := Shortest(split[1..]);
      assert forall i :: 1 <= i < |split| ==> split[i] == split[1..][i - 1];
      if |split[0]| <= |rest| then split[0] else rest
  }

  /** The walk over the fragments of `s`, from index `i` on, that stops at the
      first index where some fragment list disagrees with `s`. */
  function CommonCount(s: seq<string>, split: seq<seq<string>>, i: nat): (k: nat)
    requires i <= |s|
    requires forall j :: 0 <= j < |split| ==> |s| <= |split[j]|
    requires forall j, n :: 0 <= j < |split| && 0 <= n < i ==> split[j][n] == s[n]
    ensures i <= k <= |s|
    ensures forall j, n :: 0 <= j < |split| && 0 <= n < k ==> split[j][n] == s[n]
    ensures k < |s| ==> exists j :: 0 <= j < |split| && split[j][k] != s[k]
    decreases |s| - i
  {
    if i == |s| then i
    else if forall j :: 0 <= j < |split| ==> s[i] == split[j][i] then CommonCount(s, split, i + 1)
    else i
  }

  /** The fragments every path of the group starts with, as the walk finds them:
      a prefix of every path's fragments that cannot be extended, because some
      path has no more fragments or two paths disagree on the next one. */
  function CommonFragments(group: seq<string>): (f: seq<string>)
    requires |group| > 0
    ensures forall i :: 0 <= i < |group| ==> f <= Fragments(group[i])
    ensures exists i :: (0 <= i < |group| &&
      (|Fragments(group[i])| == |f| ||
       (|Fragments(group[0])| > |f| && Fragments(group[i])[|f|] != Fragments(group[0])[|f|])))
  {
    var split := FragmentsOfAll(group);
    var s := Shortest(split);
    var k := CommonCount(s, split, 0);
    WalkIsMaximal(split, s, k);
    s[..k]
  }

  /** Where the walk stops, the shortest list has ended or two lists disagree. */
  lemma WalkIsMaximal(split: seq<seq<string>>, s: seq<string>, k: nat)
    requires s in split
    requires forall j :: 0 <= j < |split| ==> |s| <= |split[j]|
    requires k == CommonCount(s, split, 0)
    ensures forall i :: 0 <= i < |split| ==> s[..k] <= split[i]
    ensures exists i :: (0 <= i < |split| &&
      (|split[i]| == k || (|split[0]| > k && split[i][k] != split[0][k])))
  {
    var js :| 0 <= js < |split| && split[js] == s;
    forall i | 0 <= i < |split|
      ensures s[..k] <= split[i]
    {
      assert forall n :: 0 <= n < k ==> split[i][n] == s[..k][n];
    }
    if k < |s| {
      var j :| 0 <= j < |split| && split[j][k] != s[k];
      if split[0][k] == s[k] {
        assert split[j][k] != split[0][k];
      } else {
        assert split[js][k] != split[0][k];
      }
    } else {
      assert |split[js]| == k;
    }
  }

  /** The walk finds the longest common fragment prefix of the group: it is a
      prefix of every path's fragments, and every common prefix is a prefix of it. */
  lemma CommonFragmentsIsLongest(group: seq<string>, g: seq<string>)
    requires |group| > 0
    ensures forall i :: 0 <= i < |group| ==> CommonFragments(group) <= Fragments(group[i])
    ensures (forall i :: 0 <= i < |group| ==> g <= Fragments(group[i])) ==> g <= CommonFragments(group)
  {
    var split := FragmentsOfAll(group);
    var s := Shortest(split);
    var k := CommonCount(s, split, 0);
    var f := s[..k];
    forall i | 0 <= i < |group|
      ensures f <= Fragments(group[i])
    {
      assert split[i] == Fragments(group[i]);
      assert forall n :: 0 <= n < k ==> split[i][n] == f[n];
    }
    if forall i :: 0 <= i < |group| ==> g <= Fragments(group[i]) {
      var js :| 0 <= js < |split| && split[js] == s;
      assert g <= s;
      assert forall n :: 0 <= n < |g| ==> g[n] == s[n] == f[n];
    }
  }

  /** The base path of one root group: the root itself when the group holds a
      single path, else the common fragments joined and ended by a separator,
      which is then a string prefix of every member with further fragments. */
  function GroupBasePath(key: string, group: seq<string>): (b: string)
    requires |group| > 0
    ensures |group| == 1 ==> b == key
    ensures |group| > 1 ==> b == Strings.Join(CommonFragments(group), Strings.PathSeparator) + [Strings.PathSeparator]
    ensures |group| > 1 ==> forall i :: 0 <= i < |group| && 1 <= |CommonFragments(group)| < |Fragments(group[i])| ==>
      b <= group[i] && group[i][|b|..] == Strings.Join(Fragments(group[i])[|CommonFragments(group)|..], Strings.PathSeparator)
  {
    if |group| == 1 then key
    else
      GroupBasePathIsPrefix(group);
      CommonBase(group)
  }

  /** The common fragments joined and ended by a separator. */
  function CommonBase(group: seq<string>): string
    requires |group| > 0
  {
    Strings.Join(CommonFragments(group), Strings.PathSeparator) + [Strings.PathSeparator]
  }

  /** The joined common fragments are a string prefix of each member whose
      fragments extend beyond them, and what is left after it is the member's
      remaining fragments. */
  lemma GroupBasePathIsPrefix(group: seq<string>)
    requires |group| > 0
    ensures forall i :: 0 <= i < |group| && 1 <= |CommonFragments(group)| < |Fragments(group[i])| ==>
      CommonBase(group) <= group[i] &&
      group[i][|CommonBase(group)|..] == Strings.Join(Fragments(group[i])[|CommonFragments(group)|..], Strings.PathSeparator)
  {
    var f := CommonFragments(group);
    forall i | 0 <= i < |group| && 1 <= |f| < |Fragments(group[i])|
      ensures CommonBase(group) <= group[i]
      ensures group[i][|CommonBase(group)|..] == Strings.Join(Fragments(group[i])[|f|..], Strings.PathSeparator)
    {
      var fs := Fragments(group[i]);
      assert fs[..|f|] == f;
      Strings.JoinSplit(group[i], Strings.PathSeparator);
      Strings.JoinAt(fs, |f|, Strings.PathSeparator);
    }
  }

  /** The root of every path, in path order. */
  function Roots(root: string -> string, paths: seq<string>): (r: seq<string>)
    ensures |r| == |paths|
    ensures forall i :: 0 <= i < |paths| ==> r[i] == root(paths[i])
  {
    seq(|paths|, i requires 0 <= i < |paths| => root(paths[i]))
  }

  /** The keys of the grouping by root: each root of a path once, in the order
      in which the roots first occur along the paths. */
  function RootsOf(root: string -> string, paths: seq<string>): (r: seq<string>)
    ensures Seqs.NoDuplicates(r)
    ensures forall k :: k in r <==> exists p :: p in paths && root(p) == k
    ensures Seqs.InFirstOccurrenceOrder(r, Roots(root, paths))
  {
    var roots := Roots(root, paths);
    forall k | k in roots
      ensures exists p :: p in paths && root(p) == k
    {
      var i :| 0 <= i < |roots| && roots[i] == k;
      assert paths[i] in paths;
    }
    forall p | p in paths
      ensures root(p) in roots
    {
      var i :| 0 <= i < |paths| && paths[i] == p;
      assert roots[i] == root(p);
    }
    Seqs.Distinct(roots)
  }

  /** The paths under one root, in path order. */
  function RootGroup(root: string -> string, key: string, paths: seq<string>): (r: seq<string>)
    ensures forall p :: p in r <==> p in paths && root(p) == key
    ensures (exists p :: p in paths && root(p) == key) ==> |r| > 0
  {
    Seqs.Filter((p: string) => root(p) == key, paths)
  }

  /** One base path per root key, in key order: the base path of the paths
      under that key. */
  function GroupBasePaths(root: string -> string, keys: seq<string>, paths: seq<string>): (r: seq<string>)
    requires forall k :: k in keys ==> exists p :: p in paths && root(p) == k
    ensures |r| == |keys|
    ensures forall i :: 0 <= i < |keys| ==>
      keys[i] in keys && r[i] == GroupBasePath(keys[i], RootGroup(root, keys[i], paths))
  {
    seq(|keys|, i requires 0 <= i < |keys| => BaseOfKey(root, keys, paths, i))
  }

  /** The base path of the `i`-th key's group. */
  function BaseOfKey(root: string -> string, keys: seq<string>, paths: seq<string>, i: nat): string
    requires forall k :: k in keys ==> exists p :: p in paths && root(p) == k
    requires i < |keys|
  {
    assert keys[i] in keys;
    GroupBasePath(keys[i], RootGroup(root, keys[i], paths))
  }

  /** `GetBasePaths` exactly as the reporter computes it: the document paths of
      every module, duplicates included, grouped by root; one base path per root,
      in first-occurrence order of the roots. */
  function GetBasePathsAsWritten(root: string -> string, modules: Modules, useSourceLink: bool): (r: seq<string>)
    ensures useSourceLink ==> r == [""]
    ensures !useSourceLink ==> |r| == |RootsOf(root, DocumentPaths(modules))|
    ensures !useSourceLink ==> forall i :: 0 <= i < |r| ==>
      var key := RootsOf(root, DocumentPaths(modules))[i];
      key in RootsOf(root, DocumentPaths(modules)) &&
      r[i] == GroupBasePath(key, RootGroup(root, key, DocumentPaths(modules)))
  {
    if useSourceLink then [""]
    else
      var paths := DocumentPaths(modules);
      GroupBasePaths(root, RootsOf(root, paths), paths)
  }

  /** `GetBasePaths` over the distinct document paths: a file shared by two
      modules is counted once when its root group is formed. */
  function GetBasePaths(root: string -> string, modules: Modules, useSourceLink: bool): (r: seq<string>)
    ensures useSourceLink ==> r == [""]
    ensures !useSourceLink ==> |r| == |RootsOf(root, Seqs.Distinct(DocumentPaths(modules)))|
    ensures !useSourceLink ==> forall i :: 0 <= i < |r| ==>
      var key := RootsOf(root, Seqs.Distinct(DocumentPaths(modules)))[i];
      key in RootsOf(root, Seqs.Distinct(DocumentPaths(modules))) &&
      r[i] == GroupBasePath(key, RootGroup(root, key, Seqs.Distinct(DocumentPaths(modules))))
  {
    if useSourceLink then [""]
    else
      var paths := Seqs.Distinct(DocumentPaths(modules));
      GroupBasePaths(root, RootsOf(root, paths), paths)
  }

  /** When no document path repeats, the deduplication changes nothing. */
  lemma BasePathsAgreeWithoutSharedDocuments(root: string -> string, modules: Modules, useSourceLink: bool)
    requires Seqs.NoDuplicates(DocumentPaths(modules))
    ensures GetBasePaths(root, modules, useSourceLink) == GetBasePathsAsWritten(root, modules, useSourceLink)
  {
    Seqs.DistinctOfNoDuplicates(DocumentPaths(modules));
  }

  /** The grouping keys follow the first occurrence of each root: of three
      paths whose first and last share a root, the shared root comes first. */
  lemma RootsInFirstOccurrenceOrder(root: string -> string, a: string, b: string, c: string)
    requires root(a) == root(c) && root(a) != root(b)
    ensures RootsOf(root, [a, b, c]) == [root(a), root(b)]
  {
    var roots := Roots(root, [a, b, c]);
    assert roots == [root(a), root(b), root(a)];
    assert roots[..2] == [root(a), root(b)];
    assert roots[..2][..1] == [root(a)];
    assert Seqs.Distinct([root(a)]) == [root(a)];
    assert Seqs.Distinct(roots[..2]) == [root(a), root(b)];
  }

  /** `GetRelativePathFromBase`: strips the first base path that is a prefix of
      the path; with source link, or when none matches, the path is kept. */
  function RelativePathFromBase(basePaths: seq<string>, path: string, useSourceLink: bool): (r: string)
    ensures useSourceLink ==> r == path
    ensures !useSourceLink && (forall i :: 0 <= i < |basePaths| ==> !(basePaths[i] <= path)) ==> r == path
    ensures !useSourceLink && (exists i :: 0 <= i < |basePaths| && basePaths[i] <= path) ==>
      exists i :: 0 <= i < |basePaths| && basePaths[i] <= path
        && (forall j :: 0 <= j < i ==> !(basePaths[j] <= path))
        && basePaths[i] + r == path
    decreases |basePaths|
  {
    if useSourceLink || |basePaths| == 0 then path
    else if basePaths[0] <= path then path[|basePaths[0]|..]
    else
      var r := RelativePathFromBase(basePaths[1..], path, useSourceLink);
      assert forall i :: 1 <= i < |basePaths| ==> basePaths[i] == basePaths[1..][i - 1];
      r
  }

  // ---------------------------------------------------------------------------
  // The worked example of the path algorithm

  /** The fragments of a path built from separator-free names. */
  lemma FragmentsOfNames(names: seq<string>, path: string)
    requires |names| >= 1 && forall i :: 0 <= i < |names| ==> Strings.PathSeparator !in names[i]
    requires path == Strings.Join(names, Strings.PathSeparator)
    ensures Fragments(path) == names
  {
    Strings.SplitJoin(names, Strings.PathSeparator);
  }

  /** `/d1/f2` has the fragments "", d1 and f2. */
  lemma ThreeFragments(d1: string, f2: string)
    requires Strings.PathSeparator !in d1 && Strings.PathSeparator !in f2
    ensures Fragments("/" + d1 + "/" + f2) == ["", d1, f2]
  {
    Strings.JoinCons(d1, [f2], Strings.PathSeparator);
    assert [d1] + [f2] == [d1, f2];
    Strings.JoinCons("", [d1, f2], Strings.PathSeparator);
    assert [""] + [d1, f2] == ["", d1, f2];
    assert "" + [Strings.PathSeparator] + (d1 + [Strings.PathSeparator] + f2) == "/" + d1 + "/" + f2;
    FragmentsOfNames(["", d1, f2], "/" + d1 + "/" + f2);
  }

  /** `/d1/d2/f1` has the fragments "", d1, d2 and f1. */
  lemma FourFragments(d1: string, d2: string, f1: string)
    requires Strings.PathSeparator !in d1 && Strings.PathSeparator !in d2 && Strings.PathSeparator !in f1
    ensures Fragments("/" + d1 + "/" + d2 + "/" + f1) == ["", d1, d2, f1]
  {
    Strings.JoinCons(d2, [f1], Strings.PathSeparator);
    assert [d2] + [f1] == [d2, f1];
    Strings.JoinCons(d1, [d2, f1], Strings.PathSeparator);
    assert [d1] + [d2, f1] == [d1, d2, f1];
    Strings.JoinCons("", [d1, d2, f1], Strings.PathSeparator);
    assert [""] + [d1, d2, f1] == ["", d1, d2, f1];
    assert "" + [Strings.PathSeparator] + (d1 + [Strings.PathSeparator] + (d2 + [Strings.PathSeparator] + f1)) == "/" + d1 + "/" + d2 + "/" + f1;
    FragmentsOfNames(["", d1, d2, f1], "/" + d1 + "/" + d2 + "/" + f1);
  }

  /** Of two fragment lists the strictly shorter one is the walk's reference. */
  lemma ShortestOfTwo(a: seq<string>, b: seq<string>)
    requires |b| < |a|
    ensures Shortest([a, b]) == b
  {
    assert [a, b][1..] == [b];
  }

  /** Over two fragment lists that agree before `k` and differ at `k`, the walk
      started at any `i <= k` stops at `k`. */
  lemma {:induction false} CommonCountOfTwo(a: seq<string>, b: seq<string>, i: nat, k: nat)
    requires |b| <= |a| && i <= k < |b|
    requires forall n :: 0 <= n < k ==> a[n] == b[n]
    requires a[k] != b[k]
    ensures CommonCount(b, [a, b], i) == k
    decreases k - i
  {
    if i < k {
      assert forall j :: 0 <= j < 2 ==> b[i] == [a, b][j][i];
      CommonCountOfTwo(a, b, i + 1, k);
    } else {
      assert [a, b][0][k] != b[k];
    }
  }

  lemma TwoPathCommonFragments(d1: string, d2: string, f1: string, f2: string, group: seq<string>)
    requires d2 != f2
    requires |group| == 2
    requires Fragments(group[0]) == ["", d1, d2, f1] && Fragments(group[1]) == ["", d1, f2]
    ensures CommonFragments(group) == ["", d1]
  {
    var a := Fragments(group[0]);
    var b := Fragments(group[1]);
    var split := FragmentsOfAll(group);
    assert split == [a, b];
    ShortestOfTwo(a, b);
    CommonCountOfTwo(a, b, 0, 2);
    assert CommonFragments(group) == b[..2];
  }

  /** Two paths `/d1/d2/f1` and `/d1/f2` under one root share the base `/d1/`. */
  lemma TwoPathBase(key: string, d1: string, d2: string, f1: string, f2: string)
    requires Strings.PathSeparator !in d1 && Strings.PathSeparator !in d2 && Strings.PathSeparator !in f1 && Strings.PathSeparator !in f2
    requires d2 != f2
    ensures GroupBasePath(key, ["/" + d1 + "/" + d2 + "/" + f1, "/" + d1 + "/" + f2]) == "/" + d1 + "/"
  {
    var group := ["/" + d1 + "/" + d2 + "/" + f1, "/" + d1 + "/" + f2];
    FourFragments(d1, d2, f1);
    ThreeFragments(d1, f2);
    TwoPathCommonFragments(d1, d2, f1, f2, group);
    Strings.JoinCons("", [d1], Strings.PathSeparator);
    assert [""] + [d1] == ["", d1];
    assert "" + [Strings.PathSeparator] + d1 + [Strings.PathSeparator] == "/" + d1 + "/";
  }

  /** Against the base `/d1/`, the deeper file `/d1/d2/f1` is reported as `d2/f1`. */
  lemma TwoPathRelative(d1: string, d2: string, f1: string)
    ensures RelativePathFromBase(["/" + d1 + "/"], "/" + d1 + "/" + d2 + "/" + f1, false) == d2 + "/" + f1
  {
    var base := "/" + d1 + "/";
    var path := "/" + d1 + "/" + d2 + "/" + f1;
    assert path == base + (d2 + "/" + f1);
    assert base <= path;
    assert path[|base|..] == d2 + "/" + f1;
  }

  // ---------------------------------------------------------------------------
  // A document shared by two modules

  /** When every path of a group is the same path, the common fragments are all of its fragments. */
  lemma CommonFragmentsOfCopies(group: seq<string>)
    requires |group| > 0
    requires forall i :: 0 <= i < |group| ==> group[i] == group[0]
    ensures CommonFragments(group) == Fragments(group[0])
  {
    var split := FragmentsOfAll(group);
    var s := Shortest(split);
    assert s == Fragments(group[0]);
    var k := CommonCount(s, split, 0);
    assert k == |s|;
  }

  /** Two modules that each hold the one document `path`. */
  function SharedDocument(path: string): Modules
  {
    [("first", [(path, [])]), ("second", [(path, [])])]
  }

  lemma SharedDocumentPaths(path: string)
    ensures DocumentPaths(SharedDocument(path)) == [path, path]
  {
    var modules := SharedDocument(path);
    assert DocumentPaths(modules[1..]) == [path] + DocumentPaths(modules[1..][1..]);
  }

  /** As the reporter computes it, a document shared by two modules and alone
      under its root yields the base path `path/`, which is not a prefix of the
      document, so its class filename stays the absolute path. */
  lemma SharedDocumentAsWritten(root: string -> string, path: string)
    ensures GetBasePathsAsWritten(root, SharedDocument(path), false) == [path + [Strings.PathSeparator]]
    ensures RelativePathFromBase(GetBasePathsAsWritten(root, SharedDocument(path), false), path, false) == path
  {
    var paths := DocumentPaths(SharedDocument(path));
    SharedDocumentPaths(path);
    Seqs.DistinctOfConstant(Roots(root, paths), root(path));
    var keys := RootsOf(root, paths);
    assert keys == [root(path)];
    var group := RootGroup(root, root(path), paths);
    assert group == [path, path];
    CommonFragmentsOfCopies(group);
    Strings.JoinSplit(path, Strings.PathSeparator);
    assert GroupBasePath(root(path), group) == path + [Strings.PathSeparator];
    var r := GetBasePathsAsWritten(root, SharedDocument(path), false);
    assert |r| == 1 && r[0] == GroupBasePath(root(path), group);
  }

  /** Over distinct paths the same modules yield the root as base path, and the
      filename is the path with its root stripped. */
  lemma SharedDocumentCorrected(root: string -> string, path: string)
    requires root(path) <= path
    ensures GetBasePaths(root, SharedDocument(path), false) == [root(path)]
    ensures root(path) + RelativePathFromBase(GetBasePaths(root, SharedDocument(path), false), path, false) == path
  {
    var all := DocumentPaths(SharedDocument(path));
    SharedDocumentPaths(path);
    var paths := Seqs.Distinct(all);
    assert all[..1] == [path];
    assert paths == [path];
    Seqs.DistinctOfConstant(Roots(root, paths), root(path));
    var keys := RootsOf(root, paths);
    assert keys == [root(path)];
    var group := RootGroup(root, root(path), paths);
    assert group == [path];
    assert keys[1..] == [];
    assert GroupBasePaths(root, keys, paths) == [GroupBasePath(root(path), group)] + GroupBasePaths(root, [], paths);
  }

  /** Over distinct paths, the base path of a root group is a prefix of some
      document of the group, given that a root is a prefix of its paths and the
      paths share at least their first fragment. */
  lemma DistinctGroupBaseIsPrefix(key: string, group: seq<string>)
    requires |group| > 0 && Seqs.NoDuplicates(group)
    requires forall i :: 0 <= i < |group| ==> key <= group[i]
    requires |group| > 1 ==> |CommonFragments(group)| >= 1
    ensures exists i :: 0 <= i < |group| && GroupBasePath(key, group) <= group[i]
  {
    if |group| > 1 {
      var f := CommonFragments(group);
      CommonFragmentsIsLongest(group, f);
      if forall i :: 0 <= i < |group| ==> |Fragments(group[i])| <= |f| {
        assert Fragments(group[0]) == f && Fragments(group[1]) == f;
        Strings.JoinSplit(group[0], Strings.PathSeparator);
        Strings.JoinSplit(group[1], Strings.PathSeparator);
        assert false;
      }
      var i :| 0 <= i < |group| && |Fragments(group[i])| > |f|;
      assert GroupBasePath(key, group) <= group[i];
    } else {
      assert GroupBasePath(key, group) <= group[0];
    }
  }
}
