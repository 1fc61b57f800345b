/**
  * Grouping of file paths by top-level package: the first directory of a path below the source
  * folder names its package, and files directly in the source folder belong to "base". The groups
  * form an insertion-ordered dictionary, keys in order of first occurrence.
  */
module Grouping {
  import opened Text

  /** The package of files that sit directly in the source folder. */
  const BasePackage: string := "base"

  /** A path segment that `os.path.relpath` would keep as it is. */
  predicate PlainSegment(seg: string)
  {
    seg != "" && seg != "." && seg != ".."
  }

  /** The part of `path` below the source folder; a path outside it is kept whole. */
  function RelativePath(path: string, src: string): string
  {
    if IsPrefix(src + "/", path) then path[|src| + 1..] else path
  }

  /** Below the source folder, the folder and the relative part put back together give the path. */
  lemma RelativePathRejoins(path: string, src: string)
    requires IsPrefix(src + "/", path)
    ensures path == src + "/" + RelativePath(path, src)
  {
    assert path == path[..|src| + 1] + path[|src| + 1..];
  }

  /**
    * The path lies below the source folder and its relative part is already normal: no empty,
    * "." or ".." segment, so `os.path.relpath` only strips the folder prefix.
    */
  predicate UnderSource(path: string, src: string)
  {
    && IsPrefix(src + "/", path)
    && var segments := Split(RelativePath(path, src), '/');
      forall k :: 0 <= k < |segments| ==> PlainSegment(segments[k])
  }

  /** The text before the first '/', that is `rel.split("/")[0]` (see `FirstSegmentIsSplitHead`). */
  function FirstSegment(rel: string): string
    decreases |rel|
  {
    if rel == [] || rel[0] == '/' then [] else [rel[0]] + FirstSegment(rel[1..])
  }

  /** The top-level package of one path: the first segment below the source folder when it is nested, else "base". */
  function PackageOf(path: string, src: string): string
  {
    var rel := RelativePath(path, src);
    if '/' in rel then FirstSegment(rel) else BasePackage
  }

  /** The first segment is the head of the split; it holds no slash, and a slash follows it when there is one. */
  lemma {:induction false} FirstSegmentIsSplitHead(rel: string)
    ensures FirstSegment(rel) == Split(rel, '/')[0] && '/' !in FirstSegment(rel)
    ensures '/' in rel ==> IsPrefix(FirstSegment(rel) + "/", rel)
    decreases |rel|
  {
    if rel != [] && rel[0] != '/' {
      var fs := FirstSegment(rel[1..]);
      FirstSegmentIsSplitHead(rel[1..]);
      assert rel == [rel[0]] + rel[1..];
      if '/' in rel {
        assert '/' in rel[1..];
        assert ([rel[0]] + fs) + "/" == [rel[0]] + (fs + "/");
      }
    }
  }

  /** A nested path's package is its first directory below the source folder; any other path's is "base". */
  lemma PackageOfSpec(path: string, src: string)
    ensures var rel := RelativePath(path, src); var pkg := PackageOf(path, src);
      && ('/' in rel ==> IsPrefix(pkg + "/", rel) && '/' !in pkg && pkg == Split(rel, '/')[0])
      && ('/' !in rel ==> pkg == BasePackage)
  {
    var rel := RelativePath(path, src);
    if '/' in rel {
      FirstSegmentIsSplitHead(rel);
    }
  }

  /** A package name below a normal source path is a real directory name, never empty. */
  lemma PackageOfIsNamed(path: string, src: string)
    requires UnderSource(path, src) && '/' in RelativePath(path, src)
    ensures PackageOf(path, src) != ""
  {
    FirstSegmentIsSplitHead(RelativePath(path, src));
  }

  /** The package of each path, position by position. */
  function PackagesOf(paths: seq<string>, src: string): (pkgs: seq<string>)
    ensures |pkgs| == |paths|
    ensures forall k :: 0 <= k < |paths| ==> pkgs[k] == PackageOf(paths[k], src)
    decreases |paths|
  {
    if paths == [] then []
    else PackagesOf(paths[..|paths| - 1], src) + [PackageOf(paths[|paths| - 1], src)]
  }

  /** The elements of `xs` at their first occurrence, in order (a dictionary's insertion order). */
  function FirstOccurrences(xs: seq<string>): seq<string>
    decreases |xs|
  {
    if xs == [] then []
    else
      var d := FirstOccurrences(xs[..|xs| - 1]);
      if xs[|xs| - 1] in d then d else d + [xs[|xs| - 1]]
  }

  /** The dictionary's keys in insertion order. */
  function FirstPackages(paths: seq<string>, src: string): seq<string>
  {
    FirstOccurrences(PackagesOf(paths, src))
  }

  /** The group of one package: the paths that belong to it, in input order. */
  function Members(paths: seq<string>, src: string, pkg: string): seq<string>
    decreases |paths|
  {
    if paths == [] then []
    else
      var last := paths[|paths| - 1];
      Members(paths[..|paths| - 1], src, pkg) + (if PackageOf(last, src) == pkg then [last] else [])
  }

  /** `group_by_top_level_packages`: the keys in insertion order and the dictionary itself. */
  method GroupByTopLevelPackages(paths: seq<string>, src: string) returns (keys: seq<string>, groups: map<string, seq<string>>)
    ensures keys == FirstPackages(paths, src)
    ensures forall pkg :: pkg in groups <==> pkg in keys
    ensures forall pkg :: pkg in groups ==> groups[pkg] == Members(paths, src, pkg)
  {
    keys, groups := [], map[];
    var i := 0;
    while i < |paths|
      invariant 0 <= i <= |paths|
      invariant keys == Dictionary(paths[..i], src).0
      invariant groups == Dictionary(paths[..i], src).1
    {
      var path := paths[i];
      var pkg := PackageOf(path, src);
      DictionaryStep(paths, src, i);
      if pkg !in groups {
        keys := keys + [pkg];
        groups := groups[pkg := []];
      }
      groups := groups[pkg := groups[pkg] + [path]];
      i := i + 1;
    }
    assert Grouped(paths, src, keys, groups) by {
      assert paths[..i] == paths;
      DictionaryIsGrouped(paths, src);
    }
  }

  /** The dictionary after one more path of the input. */
  lemma DictionaryStep(paths: seq<string>, src: string, i: nat)
    requires i < |paths|
    ensures var (keys, groups) := Dictionary(paths[..i], src);
      var pkg := PackageOf(paths[i], src);
      && Dictionary(paths[..i + 1], src).0 == (if pkg in groups then keys else keys + [pkg])
      && var withKey := if pkg in groups then groups else groups[pkg := []];
         Dictionary(paths[..i + 1], src).1 == withKey[pkg := withKey[pkg] + [paths[i]]]
  {
    assert paths[..i + 1][..i] == paths[..i];
  }

  /** The dictionary built from `paths`, one path at a time, with its keys in insertion order. */
  function Dictionary(paths: seq<string>, src: string): (seq<string>, map<string, seq<string>>)
    decreases |paths|
  {
    if paths == [] then ([], map[])
    else
      var (keys, groups) := Dictionary(paths[..|paths| - 1], src);
      var path := paths[|paths| - 1];
      var pkg := PackageOf(path, src);
      var withKey := if pkg in groups then groups else groups[pkg := []];
      (if pkg in groups then keys else keys + [pkg], withKey[pkg := withKey[pkg] + [path]])
  }

  /** The loop invariant of the grouping: the dictionary built from `paths` so far. */
  ghost predicate Grouped(paths: seq<string>, src: string, keys: seq<string>, groups: map<string, seq<string>>)
  {
    && keys == FirstPackages(paths, src)
    && (forall pkg :: pkg in groups <==> pkg in keys)
    && (forall pkg :: pkg in groups ==> groups[pkg] == Members(paths, src, pkg))
  }

  /** The dictionary's keys are the packages in order of first occurrence, and each group is that package's paths. */
  lemma {:induction false} DictionaryIsGrouped(paths: seq<string>, src: string)
    ensures Grouped(paths, src, Dictionary(paths, src).0, Dictionary(paths, src).1)
    decreases |paths|
  {
    if paths != [] {
      var init := paths[..|paths| - 1];
      var path := paths[|paths| - 1];
      assert init + [path] == paths;
      DictionaryIsGrouped(init, src);
      var (keys, groups) := Dictionary(init, src);
      GroupStep(init, src, path, keys, groups);
    }
  }

  /** One more path: its package is added to the keys if new, and the path is appended to its group. */
  lemma GroupStep(paths: seq<string>, src: string, path: string, keys: seq<string>, groups: map<string, seq<string>>)
    requires Grouped(paths, src, keys, groups)
    ensures var pkg := PackageOf(path, src);
      var keys' := if pkg in groups then keys else keys + [pkg];
      var withKey := if pkg in groups then groups else groups[pkg := []];
      Grouped(paths + [path], src, keys', withKey[pkg := withKey[pkg] + [path]])
  {
    var pkg := PackageOf(path, src);
    var all := paths + [path];
    KeysStep(paths, src, path);
    MembersStep(paths, src, path);
    var withKey := if pkg in groups then groups else groups[pkg := []];
    var groups' := withKey[pkg := withKey[pkg] + [path]];
    if pkg !in groups {
      MembersOfAbsentPackage(paths, src, pkg);
    }
    assert withKey[pkg] == Members(paths, src, pkg);
    forall p | p in groups'
      ensures groups'[p] == Members(all, src, p)
    {
      if p != pkg {
        assert groups'[p] == groups[p];
      }
    }
  }

  /** One more path adds its package to the keys unless it is already there. */
  lemma KeysStep(paths: seq<string>, src: string, path: string)
    ensures var pkg := PackageOf(path, src);
      var keys := FirstPackages(paths, src);
      && (pkg in keys <==> pkg in PackagesOf(paths, src))
      && FirstPackages(paths + [path], src) == if pkg in keys then keys else keys + [pkg]
  {
    var all := paths + [path];
    assert all[..|all| - 1] == paths;
    var pkgs := PackagesOf(paths, src);
    assert PackagesOf(all, src) == pkgs + [PackageOf(path, src)];
    assert (pkgs + [PackageOf(path, src)])[..|pkgs|] == pkgs;
    FirstOccurrencesSpec(pkgs);
  }

  /** One more path is appended to its own package's group and to no other. */
  lemma MembersStep(paths: seq<string>, src: string, path: string)
    ensures forall p :: Members(paths + [path], src, p) == Members(paths, src, p) + (if PackageOf(path, src) == p then [path] else [])
  {
    var all := paths + [path];
    assert all[..|all| - 1] == paths;
  }

  // ---------------------------------------------------------------------------------------
  // Properties of the grouping
  // ---------------------------------------------------------------------------------------

  /** No element occurs twice. */
  ghost predicate NoDuplicates(s: seq<string>)
  {
    forall i, j :: 0 <= i < j < |s| ==> s[i] != s[j]
  }

  /** First occurrences keep exactly the elements that occur, each once. */
  lemma {:induction false} FirstOccurrencesSpec(xs: seq<string>)
    ensures forall x :: x in FirstOccurrences(xs) <==> x in xs
    ensures NoDuplicates(FirstOccurrences(xs))
    decreases |xs|
  {
    if xs != [] {
      var init := xs[..|xs| - 1];
      var x := xs[|xs| - 1];
      FirstOccurrencesSpec(init);
      assert xs == init + [x];
      var initD := FirstOccurrences(init);
      var d := FirstOccurrences(xs);
      assert d == if x in initD then initD else initD + [x];
      assert NoDuplicates(initD);
      forall i, j | 0 <= i < j < |d|
        ensures d[i] != d[j]
      {
        if j < |initD| {
          assert d[i] == initD[i] && d[j] == initD[j];
          assert initD[i] != initD[j];
        } else {
          assert j == |initD| && d == initD + [x];
          assert d[i] == initD[i] && d[j] == x && x !in initD;
          assert initD[i] in initD;
        }
      }
    }
  }

  /** The index of the first occurrence of `x`. */
  function FirstIndex(xs: seq<string>, x: string): (i: nat)
    requires x in xs
    ensures i < |xs| && xs[i] == x && x !in xs[..i]
  {
    if xs[0] == x then 0
    else
      assert xs == [xs[0]] + xs[1..];
      var i := FirstIndex(xs[1..], x);
      assert xs[..i + 1] == [xs[0]] + xs[1..][..i];
      1 + i
  }

  /** Every element of `d` occurs in `xs`, and `d` lists them in the order of their first occurrence there. */
  ghost predicate InFirstOccurrenceOrder(d: seq<string>, xs: seq<string>)
  {
    forall i, j :: 0 <= i < j < |d| ==> d[i] in xs && d[j] in xs && FirstIndex(xs, d[i]) < FirstIndex(xs, d[j])
  }

  /** Dropping the last element keeps the first index of every element that occurs before it. */
  lemma FirstIndexOfPrefix(xs: seq<string>, x: string)
    requires xs != [] && x in xs[..|xs| - 1]
    ensures FirstIndex(xs, x) == FirstIndex(xs[..|xs| - 1], x)
  {
    var init := xs[..|xs| - 1];
    var a := FirstIndex(init, x);
    var b := FirstIndex(xs, x);
    assert xs[..a] == init[..a];
    assert forall k :: 0 <= k < a ==> xs[..a][k] == xs[k];
    assert forall k :: 0 <= k < b ==> xs[..b][k] == xs[k];
  }

  /** An element that occurs only last has its first index there. */
  lemma FirstIndexOfLast(xs: seq<string>)
    requires xs != [] && xs[|xs| - 1] !in xs[..|xs| - 1]
    ensures FirstIndex(xs, xs[|xs| - 1]) == |xs| - 1
  {
    var last := |xs| - 1;
    assert forall k :: 0 <= k < last ==> xs[..last][k] == xs[k];
  }

  /** First occurrences appear in the order in which they first occur. */
  lemma {:induction false} FirstOccurrencesOrdered(xs: seq<string>)
    ensures InFirstOccurrenceOrder(FirstOccurrences(xs), xs)
    decreases |xs|
  {
    FirstOccurrencesSpec(xs);
    if xs != [] {
      var init := xs[..|xs| - 1];
      var x := xs[|xs| - 1];
      FirstOccurrencesOrdered(init);
      FirstOccurrencesSpec(init);
      var d := FirstOccurrences(xs);
      var initD := FirstOccurrences(init);
      forall i, j | 0 <= i < j < |d|
        ensures d[i] in xs && d[j] in xs && FirstIndex(xs, d[i]) < FirstIndex(xs, d[j])
      {
        assert d[i] in d && d[j] in d && initD[i] in initD;
        FirstIndexOfPrefix(xs, d[i]);
        if j < |initD| {
          assert initD[j] in initD;
          FirstIndexOfPrefix(xs, d[j]);
        } else {
          FirstIndexOfLast(xs);
        }
      }
    }
  }

  /** A package that no path belongs to has an empty group. */
  lemma {:induction false} MembersOfAbsentPackage(paths: seq<string>, src: string, pkg: string)
    requires pkg !in PackagesOf(paths, src)
    ensures Members(paths, src, pkg) == []
    decreases |paths|
  {
    if paths != [] {
      var init := paths[..|paths| - 1];
      assert PackagesOf(paths, src) == PackagesOf(init, src) + [PackageOf(paths[|paths| - 1], src)];
      MembersOfAbsentPackage(init, src, pkg);
    }
  }

  /** Keys are exactly the packages that occur, each once, in order of first occurrence. */
  lemma KeysAreFirstOccurrences(paths: seq<string>, src: string)
    ensures var keys := FirstPackages(paths, src); var pkgs := PackagesOf(paths, src);
      && (forall pkg :: pkg in keys <==> pkg in pkgs)
      && NoDuplicates(keys)
      && InFirstOccurrenceOrder(keys, pkgs)
  {
    FirstOccurrencesSpec(PackagesOf(paths, src));
    FirstOccurrencesOrdered(PackagesOf(paths, src));
  }

  /** Every key's group is non-empty. */
  lemma {:induction false} GroupsAreNonEmpty(paths: seq<string>, src: string, pkg: string)
    requires pkg in PackagesOf(paths, src)
    ensures Members(paths, src, pkg) != []
    decreases |paths|
  {
    var init := paths[..|paths| - 1];
    if PackageOf(paths[|paths| - 1], src) != pkg {
      assert PackagesOf(paths, src) == PackagesOf(init, src) + [PackageOf(paths[|paths| - 1], src)];
      GroupsAreNonEmpty(init, src, pkg);
    }
  }

  /** A group holds exactly the input paths of that package. */
  lemma {:induction false} MembersSpec(paths: seq<string>, src: string, pkg: string)
    ensures forall p :: p in Members(paths, src, pkg) <==> exists k :: 0 <= k < |paths| && paths[k] == p && PackageOf(paths[k], src) == pkg
    decreases |paths|
  {
    if paths != [] {
      var init := paths[..|paths| - 1];
      MembersSpec(init, src, pkg);
      forall p
        ensures (exists k :: 0 <= k < |paths| && paths[k] == p && PackageOf(paths[k], src) == pkg) <==>
          (exists k :: 0 <= k < |init| && init[k] == p && PackageOf(init[k], src) == pkg) ||
          (paths[|paths| - 1] == p && PackageOf(p, src) == pkg)
      {
        if exists k :: 0 <= k < |paths| && paths[k] == p && PackageOf(paths[k], src) == pkg {
          var k :| 0 <= k < |paths| && paths[k] == p && PackageOf(paths[k], src) == pkg;
          if k < |init| { assert init[k] == paths[k]; }
        }
      }
    }
  }

  /** The groups, concatenated in key order. */
  function Regrouped(paths: seq<string>, src: string, keys: seq<string>): seq<string>
    decreases |keys|
  {
    if keys == [] then [] else Members(paths, src, keys[0]) + Regrouped(paths, src, keys[1..])
  }

  /** Adding one path to the input adds it once to the concatenation, when its key occurs once among the keys. */
  lemma {:induction false} RegroupedGrows(paths: seq<string>, src: string, keys: seq<string>)
    requires paths != []
    requires NoDuplicates(keys)
    ensures var path := paths[|paths| - 1];
      multiset(Regrouped(paths, src, keys)) ==
      multiset(Regrouped(paths[..|paths| - 1], src, keys))
        + (if PackageOf(path, src) in keys then multiset{path} else multiset{})
    decreases |keys|
  {
    if keys != [] {
      RegroupedGrows(paths, src, keys[1..]);
      assert forall j :: 0 <= j < |keys[1..]| ==> keys[1..][j] == keys[j + 1] != keys[0];
      assert keys[0] !in keys[1..];
    }
  }

  /** A key with an empty group adds nothing to the concatenation. */
  lemma {:induction false} RegroupedAppendKey(paths: seq<string>, src: string, keys: seq<string>, pkg: string)
    requires Members(paths, src, pkg) == []
    ensures Regrouped(paths, src, keys + [pkg]) == Regrouped(paths, src, keys)
    decreases |keys|
  {
    if keys == [] {
      assert Regrouped(paths, src, [pkg]) == Members(paths, src, pkg) + Regrouped(paths, src, []);
    } else {
      assert (keys + [pkg])[1..] == keys[1..] + [pkg];
      RegroupedAppendKey(paths, src, keys[1..], pkg);
    }
  }

  /** Every input path lands in exactly one group: the groups together are a permutation of the input. */
  lemma {:induction false} GroupsPartitionPaths(paths: seq<string>, src: string)
    ensures multiset(Regrouped(paths, src, FirstPackages(paths, src))) == multiset(paths)
    decreases |paths|
  {
    if paths != [] {
      var init := paths[..|paths| - 1];
      var path := paths[|paths| - 1];
      var pkg := PackageOf(path, src);
      assert paths == init + [path];
      assert PackagesOf(paths, src) == PackagesOf(init, src) + [pkg];
      GroupsPartitionPaths(init, src);
      var initKeys := FirstPackages(init, src);
      var keys := FirstPackages(paths, src);
      assert keys == if pkg in initKeys then initKeys else initKeys + [pkg];
      FirstOccurrencesSpec(PackagesOf(paths, src));
      RegroupedGrows(paths, src, keys);
      assert multiset(Regrouped(paths, src, keys)) == multiset(Regrouped(init, src, keys)) + multiset{path};
      if pkg !in initKeys {
        FirstOccurrencesSpec(PackagesOf(init, src));
        MembersOfAbsentPackage(init, src, pkg);
        RegroupedAppendKey(init, src, initKeys, pkg);
      }
      assert Regrouped(init, src, keys) == Regrouped(init, src, initKeys);
    }
  }
}
