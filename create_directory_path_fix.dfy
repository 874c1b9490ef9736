/**
 * `CreateDirectoryPathFix`: the quick fix that creates a missing directory
 * below a target directory, creating the intermediate directories of the
 * target's path-to-create and of the new location's sub-path on the way.
 *
 * The project's directory tree is a set of paths (sequences of directory
 * names, the empty path being the file-system root). Whether the platform
 * accepts a particular creation is not visible from the fix: the tree
 * carries the set of paths whose creation it refuses.
 */
module QuickFix {
  import opened Wrappers

  type Path = seq<string>

  /** Every directory's parent is a directory too. */
  ghost predicate PrefixClosed(paths: set<Path>) {
    forall p :: p in paths && p != [] ==> p[..|p| - 1] in paths
  }

  /** A creation the walk would need and the platform refuses. */
  predicate Blocked(paths: set<Path>, refused: set<Path>, p: Path) {
    p !in paths && p in refused
  }

  /** The tree and the directory reached after a walk; no directory when a creation failed. */
  datatype Walk = Walk(paths: set<Path>, reached: Option<Path>)

  /** `findOrCreateSubdirectory`: the existing child is reused; otherwise the child is created, which may fail. */
  function FindOrCreate(paths: set<Path>, refused: set<Path>, parent: Path, name: string): (w: Walk) {
    var child := parent + [name];
    if child in paths then Walk(paths, Some(child))
    else if child in refused then Walk(paths, None)
    else Walk(paths + {child}, Some(child))
  }

  /** The paths `start + segs[..i]` for `1 <= i <= n`: the directories a walk of `n` segments passes through. */
  function Prefixes(start: Path, segs: seq<string>, n: nat): set<Path>
    requires n <= |segs|
  {
    if n == 0 then {} else Prefixes(start, segs, n - 1) + {start + segs[..n]}
  }

  lemma {:induction false} PrefixesMembers(start: Path, segs: seq<string>, n: nat, p: Path)
    requires n <= |segs|
    ensures p in Prefixes(start, segs, n) <==> exists i :: 1 <= i <= n && p == start + segs[..i]
  {
    if n > 0 {
      PrefixesMembers(start, segs, n - 1, p);
    }
  }

  /** Every path of `Prefixes(start, segs, n)` is longer than `start` and at most `n` longer. */
  lemma {:induction false} PrefixesLengths(start: Path, segs: seq<string>, n: nat)
    requires n <= |segs|
    ensures forall p :: p in Prefixes(start, segs, n) ==> |start| < |p| <= |start| + n
  {
    if n > 0 {
      PrefixesLengths(start, segs, n - 1);
    }
  }

  /** The walk of the two `for` loops: find or create each segment in turn, stopping at the first failure. */
  function WalkSegments(paths: set<Path>, refused: set<Path>, start: Path, segs: seq<string>): (w: Walk)
    ensures paths <= w.paths
    ensures w.reached.Some? ==> w.reached.value == start + segs && w.paths == paths + Prefixes(start, segs, |segs|)
  {
    if segs == [] then Walk(paths, Some(start))
    else
      var init := segs[..|segs| - 1];
      var w := WalkSegments(paths, refused, start, init);
      if w.reached.None? then w
      else
        assert Prefixes(start, segs, |init|) == Prefixes(start, init, |init|) by { PrefixesOfInit(start, segs); }
        assert start + init + [segs[|segs| - 1]] == start + segs[..|segs|] == start + segs;
        FindOrCreate(w.paths, refused, w.reached.value, segs[|segs| - 1])
  }

  lemma PrefixesOfInit(start: Path, segs: seq<string>)
    requires segs != []
    ensures Prefixes(start, segs, |segs| - 1) == Prefixes(start, segs[..|segs| - 1], |segs| - 1)
  {
    PrefixesAgree(start, segs, segs[..|segs| - 1], |segs| - 1);
  }

  lemma {:induction false} PrefixesAgree(start: Path, s: seq<string>, t: seq<string>, n: nat)
    requires n <= |s| && n <= |t| && s[..n] == t[..n]
    ensures Prefixes(start, s, n) == Prefixes(start, t, n)
  {
    if n > 0 {
      assert s[..n - 1] == t[..n - 1] by { assert s[..n - 1] == s[..n][..n - 1]; assert t[..n - 1] == t[..n][..n - 1]; }
      PrefixesAgree(start, s, t, n - 1);
    }
  }

  /** The segment taken by step `n` of a walk over `segs` is the last one of `segs[..n]`. */
  lemma WalkStep(paths: set<Path>, refused: set<Path>, start: Path, segs: seq<string>, n: nat)
    requires n < |segs|
    ensures var w := WalkSegments(paths, refused, start, segs[..n]);
      WalkSegments(paths, refused, start, segs[..n + 1])
        == if w.reached.None? then w else FindOrCreate(w.paths, refused, w.reached.value, segs[n])
  {
    assert segs[..n + 1][..n] == segs[..n];
  }

  /** A walk that failed on some leading segments fails the same way on the whole list: no later segment is attempted. */
  lemma {:induction false} WalkFailureStops(paths: set<Path>, refused: set<Path>, start: Path, segs: seq<string>, n: nat)
    requires n <= |segs|
    requires WalkSegments(paths, refused, start, segs[..n]).reached.None?
    ensures WalkSegments(paths, refused, start, segs) == WalkSegments(paths, refused, start, segs[..n])
    decreases |segs| - n
  {
    if n < |segs| {
      WalkStep(paths, refused, start, segs, n);
      WalkFailureStops(paths, refused, start, segs, n + 1);
    } else {
      assert segs[..n] == segs;
    }
  }

  /** The walk succeeds exactly when none of the directories it needs to create is refused. */
  lemma {:induction false} WalkSucceedsIff(paths: set<Path>, refused: set<Path>, start: Path, segs: seq<string>)
    ensures WalkSegments(paths, refused, start, segs).reached.Some?
        <==> forall i :: 1 <= i <= |segs| ==> !Blocked(paths, refused, start + segs[..i])
  {
    if segs != [] {
      var n := |segs| - 1;
      var init := segs[..n];
      WalkSucceedsIff(paths, refused, start, init);
      assert forall i :: 1 <= i <= n ==> init[..i] == segs[..i];
      var w := WalkSegments(paths, refused, start, init);
      if w.reached.Some? {
        PrefixesLengths(start, init, n);
        assert start + segs[..|segs|] == start + segs;
        assert start + init + [segs[n]] == start + segs;
        assert start + segs !in Prefixes(start, init, n);
      }
    }
  }

  /**
   * When the `k`-th directory of the walk is the first one refused, the
   * walk fails and exactly the directories before it that were missing have
   * been created: nothing at or after position `k`, and nothing removed.
   */
  lemma {:induction false} WalkStopsAtFirstBlocked(paths: set<Path>, refused: set<Path>, start: Path, segs: seq<string>, k: nat)
    requires 1 <= k <= |segs|
    requires Blocked(paths, refused, start + segs[..k])
    requires forall i :: 1 <= i < k ==> !Blocked(paths, refused, start + segs[..i])
    ensures var w := WalkSegments(paths, refused, start, segs);
      w.reached.None? && w.paths == paths + Prefixes(start, segs, k - 1)
  {
    var init := segs[..k - 1];
    WalkSucceedsIff(paths, refused, start, init);
    assert forall i :: 1 <= i <= k - 1 ==> init[..i] == segs[..i];
    var w := WalkSegments(paths, refused, start, init);
    assert w.reached.Some?;
    PrefixesAgree(start, segs, init, k - 1);
    PrefixesLengths(start, init, k - 1);
    WalkStep(paths, refused, start, segs, k - 1);
    assert start + init + [segs[k - 1]] == start + segs[..k];
    WalkFailureStops(paths, refused, start, segs, k);
  }

  /** Find-or-create reuses what exists: once a walk has succeeded, walking it again changes nothing. */
  lemma {:induction false} WalkReusesExisting(paths: set<Path>, refused: set<Path>, start: Path, segs: seq<string>)
    requires Prefixes(start, segs, |segs|) <= paths
    ensures WalkSegments(paths, refused, start, segs) == Walk(paths, Some(start + segs))
  {
    if segs != [] {
      var n := |segs| - 1;
      PrefixesOfInit(start, segs);
      WalkReusesExisting(paths, refused, start, segs[..n]);
      assert segs[..|segs|] == segs;
      assert start + segs[..n] + [segs[n]] == start + segs;
    }
  }

  lemma WalkIdempotent(paths: set<Path>, refused: set<Path>, start: Path, segs: seq<string>)
    requires WalkSegments(paths, refused, start, segs).reached.Some?
    ensures var w := WalkSegments(paths, refused, start, segs);
      WalkSegments(w.paths, refused, start, segs) == w
  {
    WalkReusesExisting(WalkSegments(paths, refused, start, segs).paths, refused, start, segs);
  }

  /** Walking `s + t` is walking `s`, then walking `t` from where `s` ended, unless `s` already failed. */
  lemma {:induction false} WalkConcat(paths: set<Path>, refused: set<Path>, start: Path, s: seq<string>, t: seq<string>)
    ensures var w := WalkSegments(paths, refused, start, s);
      WalkSegments(paths, refused, start, s + t)
        == if w.reached.None? then w else WalkSegments(w.paths, refused, w.reached.value, t)
  {
    if t == [] {
      assert s + t == s;
    } else {
      var n := |t| - 1;
      assert (s + t)[..|s + t| - 1] == s + t[..n];
      assert (s + t)[|s + t| - 1] == t[n];
      WalkConcat(paths, refused, start, s, t[..n]);
    }
  }

  /** A walk from an existing directory keeps the tree prefix-closed: every directory it creates has its parent. */
  lemma {:induction false} WalkKeepsTreeClosed(paths: set<Path>, refused: set<Path>, start: Path, segs: seq<string>)
    requires PrefixClosed(paths) && start in paths
    ensures var w := WalkSegments(paths, refused, start, segs);
      PrefixClosed(w.paths) && (w.reached.Some? ==> w.reached.value in w.paths)
  {
    if segs != [] {
      var n := |segs| - 1;
      var init := segs[..n];
      WalkKeepsTreeClosed(paths, refused, start, init);
      var w := WalkSegments(paths, refused, start, init);
      if w.reached.Some? {
        var child := w.reached.value + [segs[n]];
        assert child[..|child| - 1] == w.reached.value;
      }
    }
  }

  // ---------------------------------------------------------------------
  // The whole fix on the abstract tree
  // ---------------------------------------------------------------------

  /** The tree after `apply`, and whether it ran to the end without an `IncorrectOperationException`. */
  datatype Outcome = Outcome(paths: set<Path>, created: bool)

  /**
   * Walk the segments from the root, then `createSubdirectory(newName)` on
   * the directory reached, which fails when that name is already taken or the
   * platform refuses it.
   */
  function CreateDirectoryPath(paths: set<Path>, refused: set<Path>, root: Path, segs: seq<string>, newName: string): (o: Outcome)
  {
    var w := WalkSegments(paths, refused, root, segs);
    if w.reached.None? then Outcome(w.paths, false)
    else
      var target := w.reached.value + [newName];
      if target in w.paths || target in refused then Outcome(w.paths, false)
      else Outcome(w.paths + {target}, true)
  }

  /**
   * The fix succeeds exactly when no missing intermediate directory is
   * refused and the new directory neither exists yet nor is refused; it then
   * adds exactly the missing directories along `root / segs / newName`.
   */
  lemma CreateDirectoryPathSucceeds(paths: set<Path>, refused: set<Path>, root: Path, segs: seq<string>, newName: string)
    ensures var o := CreateDirectoryPath(paths, refused, root, segs, newName);
      && (o.created <==>
            && (forall i :: 1 <= i <= |segs| ==> !Blocked(paths, refused, root + segs[..i]))
            && root + segs + [newName] !in paths && root + segs + [newName] !in refused)
      && (o.created ==> o.paths == paths + Prefixes(root, segs + [newName], |segs| + 1))
  {
    WalkSucceedsIff(paths, refused, root, segs);
    var w := WalkSegments(paths, refused, root, segs);
    if w.reached.Some? {
      var full := segs + [newName];
      PrefixesLengths(root, segs, |segs|);
      assert root + segs + [newName] !in Prefixes(root, segs, |segs|);
      PrefixesAgree(root, full, segs, |segs|);
      assert full[..|segs| + 1] == full;
      assert root + full == root + segs + [newName];
    }
  }

  /** Nothing is ever removed, and on failure the new directory is not among the created ones: there is no rollback and no partial final step. */
  lemma CreateDirectoryPathFailure(paths: set<Path>, refused: set<Path>, root: Path, segs: seq<string>, newName: string)
    ensures var o := CreateDirectoryPath(paths, refused, root, segs, newName);
      && paths <= o.paths
      && (!o.created ==> o.paths <= paths + Prefixes(root, segs, |segs|))
  {
    var w := WalkSegments(paths, refused, root, segs);
    if w.reached.None? {
      var k := FirstBlocked(paths, refused, root, segs);
      WalkStopsAtFirstBlocked(paths, refused, root, segs, k);
      PrefixesGrow(root, segs, k - 1, |segs|);
    }
  }

  /** The position of the first refused directory of a walk that fails. */
  function FirstBlocked(paths: set<Path>, refused: set<Path>, start: Path, segs: seq<string>): (k: nat)
    requires WalkSegments(paths, refused, start, segs).reached.None?
    ensures 1 <= k <= |segs| && Blocked(paths, refused, start + segs[..k])
    ensures forall i :: 1 <= i < k ==> !Blocked(paths, refused, start + segs[..i])
  {
    WalkSucceedsIff(paths, refused, start, segs);
    FirstBlockedFrom(paths, refused, start, segs, 1)
  }

  function FirstBlockedFrom(paths: set<Path>, refused: set<Path>, start: Path, segs: seq<string>, from: nat): (k: nat)
    requires 1 <= from <= |segs|
    requires forall i :: 1 <= i < from ==> !Blocked(paths, refused, start + segs[..i])
    requires exists i :: from <= i <= |segs| && Blocked(paths, refused, start + segs[..i])
    ensures from <= k <= |segs| && Blocked(paths, refused, start + segs[..k])
    ensures forall i :: 1 <= i < k ==> !Blocked(paths, refused, start + segs[..i])
    decreases |segs| - from
  {
    if Blocked(paths, refused, start + segs[..from]) then from
    else FirstBlockedFrom(paths, refused, start, segs, from + 1)
  }

  lemma {:induction false} PrefixesGrow(start: Path, segs: seq<string>, m: nat, n: nat)
    requires m <= n <= |segs|
    ensures Prefixes(start, segs, m) <= Prefixes(start, segs, n)
    decreases n - m
  {
    if m < n {
      PrefixesGrow(start, segs, m, n - 1);
    }
  }

  // ---------------------------------------------------------------------
  // The platform objects
  // ---------------------------------------------------------------------

  /** The directories of the project, with the creations the platform would refuse. */
  class DirectoryTree {
    var paths: set<Path>
    const refused: set<Path>

    ghost predicate Valid()
      reads this
    {
      PrefixClosed(paths)
    }

    constructor (paths: set<Path>, refused: set<Path>)
      requires PrefixClosed(paths)
      ensures Valid() && this.paths == paths && this.refused == refused
    {
      this.paths := paths;
      this.refused := refused;
    }

    /** `PsiDirectory.createSubdirectory`: fails when the name is already taken or the platform refuses it. */
    method CreateSubdirectory(parent: Path, name: string) returns (child: Option<Path>)
      requires Valid() && parent in paths
      modifies this
      ensures Valid()
      ensures child.Some? <==> parent + [name] !in old(paths) && parent + [name] !in refused
      ensures child.Some? ==> child.value == parent + [name]
      ensures paths == if child.Some? then old(paths) + {parent + [name]} else old(paths)
    {
      var p := parent + [name];
      if p in paths || p in refused {
        child := None;
      } else {
        assert p[..|p| - 1] == parent;
        paths := paths + {p};
        child := Some(p);
      }
    }

    /** `findOrCreateSubdirectory`: the existing child when there is one, otherwise a new one. */
    method FindOrCreateSubdirectory(parent: Path, name: string) returns (child: Option<Path>)
      requires Valid() && parent in paths
      modifies this
      ensures Valid()
      ensures Walk(paths, child) == FindOrCreate(old(paths), refused, parent, name)
      ensures child.Some? ==> child.value in paths
    {
      if parent + [name] in paths {
        child := Some(parent + [name]);
      } else {
        child := CreateSubdirectory(parent, name);
      }
    }
  }

  /** Where the new directory goes: its name and the sub-path below the target directory. */
  datatype NewFileLocation = NewFileLocation(newFileName: string, subPath: seq<string>)

  /** A candidate target: an existing directory (None when it cannot be resolved) and the path still to create below it. */
  datatype TargetDirectory = TargetDirectory(directory: Option<Path>, pathToCreate: seq<string>)

  class CreateDirectoryPathFix {
    var myIsAvailable: bool
    var myIsAvailableTimeStamp: int
    const myKey: string
    const myNewFileName: string
    const mySubPath: seq<string>

    /** A new fix is available, stamped with the current time `now`. */
    constructor (location: NewFileLocation, fixLocaleKey: string, now: int)
      ensures myIsAvailable && myIsAvailableTimeStamp == now
      ensures myKey == fixLocaleKey && myNewFileName == location.newFileName && mySubPath == location.subPath
    {
      myKey := fixLocaleKey;
      myNewFileName := location.newFileName;
      mySubPath := location.subPath;
      myIsAvailable := true;
      myIsAvailableTimeStamp := now;
    }

    /** The two-argument constructor, with the default message key. */
    constructor WithDefaultKey(location: NewFileLocation, now: int)
      ensures myIsAvailable && myIsAvailableTimeStamp == now
      ensures myKey == "create.directory.text" && myNewFileName == location.newFileName && mySubPath == location.subPath
    {
      myKey := "create.directory.text";
      myNewFileName := location.newFileName;
      mySubPath := location.subPath;
      myIsAvailable := true;
      myIsAvailableTimeStamp := now;
    }

    /** One `for` loop of `apply`: `currentDirectory = findOrCreateSubdirectory(currentDirectory, pathPart)` for each part. */
    static method WalkFrom(tree: DirectoryTree, start: Path, parts: seq<string>) returns (reached: Option<Path>)
      requires tree.Valid() && start in tree.paths
      modifies tree
      ensures tree.Valid()
      ensures Walk(tree.paths, reached) == WalkSegments(old(tree.paths), tree.refused, start, parts)
      ensures reached.Some? ==> reached.value in tree.paths
    {
      var current := start;
      var i := 0;
      while i < |parts|
        invariant 0 <= i <= |parts|
        invariant tree.Valid() && current in tree.paths
        invariant WalkSegments(old(tree.paths), tree.refused, start, parts[..i]) == Walk(tree.paths, Some(current))
      {
        WalkStep(old(tree.paths), tree.refused, start, parts, i);
        var next := tree.FindOrCreateSubdirectory(current, parts[i]);
        if next.None? {
          WalkFailureStops(old(tree.paths), tree.refused, start, parts, i + 1);
          return None;
        }
        current := next.value;
        i := i + 1;
      }
      assert parts[..i] == parts;
      reached := Some(current);
    }

    /**
     * `apply`: reset the time stamp, then walk `pathToCreate` and the
     * sub-path from the target directory and create the new directory there.
     * The first failing creation ends the walk and makes the fix unavailable.
     */
    method Apply(tree: DirectoryTree, directory: TargetDirectory)
      requires tree.Valid()
      requires directory.directory.Some? ==> directory.directory.value in tree.paths
      modifies this, tree
      ensures tree.Valid()
      ensures myIsAvailableTimeStamp == 0
      ensures directory.directory.None? ==> tree.paths == old(tree.paths) && myIsAvailable == old(myIsAvailable)
      ensures directory.directory.Some? ==>
        var o := CreateDirectoryPath(old(tree.paths), tree.refused, directory.directory.value,
                                     directory.pathToCreate + mySubPath, myNewFileName);
        tree.paths == o.paths && myIsAvailable == (old(myIsAvailable) && o.created)
    {
      myIsAvailableTimeStamp := 0;
      if directory.directory.None? {
        return;
      }
      var root := directory.directory.value;
      var reached := WalkFrom(tree, root, directory.pathToCreate);
      WalkConcat(old(tree.paths), tree.refused, root, directory.pathToCreate, mySubPath);
      if reached.None? {
        myIsAvailable := false;
        return;
      }
      var current := reached.value;
      reached := WalkFrom(tree, current, mySubPath);
      if reached.None? {
        myIsAvailable := false;
        return;
      }
      current := reached.value;
      var created := tree.CreateSubdirectory(current, myNewFileName);
      if created.None? {
        myIsAvailable := false;
      }
    }
  }
}
