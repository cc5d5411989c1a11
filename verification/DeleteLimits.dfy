/** Exactly when a delete by pattern is safe, and exactly when it deletes all it should
    (artifactory/services/delete.go). */
module DeleteLimits {
  import opened Text
  import opened StringOrder
  import opened ResultItems
  import opened DeleteUtils
  import opened DeleteSweep
  import opened SearchUtil
  import opened Delete

  // ----- A file to keep that no candidate is -----

  function FreshName(items: seq<ResultItem>): (name: string)
    ensures Segment(name)
    ensures forall x :: x in items ==> |x.name| < |name|
    ensures forall i :: 0 <= i < |name| ==> name[i] == 'x'
  {
    if items == [] then "x"
    else
      var rest := FreshName(items[1..]);
      var name := rest + seq(|items[0].name|, _ => 'x');
      assert items == [items[0]] + items[1..];
      assert '/' !in name && name[0] == 'x';
      name
  }

  /** A file with another name is another file. */
  lemma OtherNameOtherPath(c: ResultItem, f: ResultItem)
    requires WellFormed(c) && WellFormed(f) && !IsFolder(c) && !IsFolder(f) && c.name != f.name
    ensures GetItemRelativePath(c) != GetItemRelativePath(f)
  {
    hide GetItemRelativePath, GetItemRelativeLocation, WellFormed;
    if GetItemRelativePath(c) == GetItemRelativePath(f) {
      LocationOfPath(c, f);
      PathHasName(c);
      PathHasName(f);
      Cancel(GetItemRelativeLocation(c), c.name, f.name);
    }
  }

  lemma Cancel(l: string, a: string, b: string)
    requires l + a == l + b
    ensures a == b
  {
    assert (l + a)[|l|..] == a && (l + b)[|l|..] == b;
  }

  lemma PathHasName(c: ResultItem)
    requires WellFormed(c) && !IsFolder(c)
    ensures GetItemRelativePath(c) == GetItemRelativeLocation(c) + c.name
    ensures GetSortKey(c) == GetItemRelativePath(c)
  {
    hide GetItemRelativePath, GetItemRelativeLocation, SegmentPath;
    Keys(c);
    assert Location(c) + c.name + "" == Location(c) + c.name;
  }

  lemma FreshIsDisjoint(candidates: seq<ResultItem>, f: ResultItem)
    requires SearchResults(candidates) && WellFormed(f) && !IsFolder(f) && f.name == FreshName(candidates)
    ensures Disjoint(candidates, [f])
  {
    hide GetItemRelativePath, WellFormed;
    forall c | c in candidates && !IsFolder(c)
      ensures GetItemRelativePath(c) != GetItemRelativePath(f)
    {
      OtherNameOtherPath(c, f);
    }
  }

  // ----- Safety -----

  ghost predicate ListSafe(candidates: seq<ResultItem>, excludeProps: string, found: seq<ResultItem>,
                           maxBufferSize: nat)
  {
    forall x: ResultItem, f: ResultItem ::
      x in PathsToDelete(candidates, excludeProps, found, maxBufferSize) && f in found && f.itemType == "file" ==>
      !Takes(x, f)
  }

  /** Folders that were written are planned for deletion. */
  lemma WrittenIsPlanned(candidates: seq<ResultItem>, excludeProps: string, found: seq<ResultItem>,
                         maxBufferSize: nat, d: ResultItem)
    requires excludeProps != "" && d in FoldersToDelete(candidates, found, maxBufferSize)
    ensures d in ToDelete(candidates, excludeProps, found, maxBufferSize)
  {
    hide FoldersToDelete, Others;
    WrittenAreFolders(candidates, found, maxBufferSize);
  }

  lemma PlannedAreResults(candidates: seq<ResultItem>, excludeProps: string, found: seq<ResultItem>, maxBufferSize: nat)
    requires SearchResults(candidates)
    ensures SearchResults(ToDelete(candidates, excludeProps, found, maxBufferSize))
  {
    hide ToDelete, WellFormed, RepoRoot;
    forall x | x in ToDelete(candidates, excludeProps, found, maxBufferSize)
      ensures x in candidates
    {
      ToDeleteMembers(candidates, excludeProps, found, maxBufferSize, x);
    }
  }

  /** A planned item's paths are covered by the final list. */
  lemma PlannedIsCovered(candidates: seq<ResultItem>, excludeProps: string, found: seq<ResultItem>, maxBufferSize: nat,
                         d: ResultItem, path: string)
    requires SearchResults(candidates)
    requires d in ToDelete(candidates, excludeProps, found, maxBufferSize) && CoversPath(d, path)
    ensures Covered(PathsToDelete(candidates, excludeProps, found, maxBufferSize), path)
  {
    hide ToDelete, CoversPath, Covered, SortedByKey, TopChain, SearchResults;
    var planned := ToDelete(candidates, excludeProps, found, maxBufferSize);
    PlannedAreResults(candidates, excludeProps, found, maxBufferSize);
    CoveredMember(planned, path);
    ReductionCovers(planned, path);
  }

  /** An inversion comes with a file to keep that the final list covers. */
  lemma InversionCovers(candidates: seq<ResultItem>, excludeProps: string, maxBufferSize: nat) returns (f: ResultItem)
    requires SearchResults(candidates) && excludeProps != "" && !NoInversion(FolderStream(candidates, maxBufferSize))
    ensures WellFormed(f) && f.itemType == "file" && f.name == FreshName(candidates)
    ensures Covered(PathsToDelete(candidates, excludeProps, [f], maxBufferSize), GetItemRelativePath(f))
  {
    hide GetItemRelativePath, GetItemRelativeLocation, GetSortKey, HasPrefix, FolderStream, WellFormed, SweepNext,
         PathsToDelete, Covered,
         Segment, NoInversion, FolderList, FileList, PathOrder;
    FolderStreamFolders(candidates, maxBufferSize);
    var d: ResultItem;
    f, d := UnsafeWitness(FolderStream(candidates, maxBufferSize), FreshName(candidates));
    SingleFileToKeep(f, maxBufferSize);
    WrittenIsPlanned(candidates, excludeProps, [f], maxBufferSize, d);
    WrittenAreFolders(candidates, [f], maxBufferSize);
    PrefixOfLocation(d, f);
    PlannedIsCovered(candidates, excludeProps, [f], maxBufferSize, d, GetItemRelativePath(f));
  }

  /** What covers the path of a well-formed file takes the file. */
  lemma CoveringTakes(x: ResultItem, f: ResultItem)
    requires (WellFormed(x) || RepoRoot(x)) && WellFormed(f) && !IsFolder(f) && CoversPath(x, GetItemRelativePath(f))
    ensures Takes(x, f)
  {
    hide GetItemRelativePath, WellFormed;
    if !IsFolder(x) {
      PathHasName(x);
    }
  }

  /** End-to-end: the final list takes no file to keep, whatever the second search finds besides the candidate files,
      if and only if the buffered and merged folders have no inversion. */
  lemma DeleteIsSafeIff(candidates: seq<ResultItem>, excludeProps: string, maxBufferSize: nat)
    requires SearchResults(candidates) && excludeProps != ""
    ensures (forall found :: SearchResults(found) && Disjoint(candidates, found) ==>
             ListSafe(candidates, excludeProps, found, maxBufferSize))
            <==> NoInversion(FolderStream(candidates, maxBufferSize))
  {
    hide FolderStream, PathsToDelete, WellFormed, Takes, Disjoint, NoInversion, RepoRoot, Covered, CoversPath,
         GetItemRelativePath;
    if NoInversion(FolderStream(candidates, maxBufferSize)) {
      forall found | SearchResults(found) && Disjoint(candidates, found)
        ensures ListSafe(candidates, excludeProps, found, maxBufferSize)
      {
        forall x: ResultItem, f: ResultItem | x in PathsToDelete(candidates, excludeProps, found, maxBufferSize)
                                              && f in found && f.itemType == "file"
          ensures !Takes(x, f)
        {
          DeleteIsSafe(candidates, excludeProps, found, maxBufferSize, x, f);
        }
      }
    } else {
      var f := InversionCovers(candidates, excludeProps, maxBufferSize);
      FreshIsDisjoint(candidates, f);
      CoveredMember(PathsToDelete(candidates, excludeProps, [f], maxBufferSize), GetItemRelativePath(f));
      var x :| x in PathsToDelete(candidates, excludeProps, [f], maxBufferSize)
               && CoversPath(x, GetItemRelativePath(f));
      DeletedMembers(candidates, excludeProps, [f], maxBufferSize, x);
      CoveringTakes(x, f);
      assert f in [f];
      assert !ListSafe(candidates, excludeProps, [f], maxBufferSize);
    }
  }

  /** In particular a delete is safe without root folders, or when all candidate folders fit one buffer. */
  lemma DeleteIsSafeInPractice(candidates: seq<ResultItem>, excludeProps: string, found: seq<ResultItem>,
                               maxBufferSize: nat)
    requires SearchResults(candidates) && SearchResults(found) && excludeProps != "" && Disjoint(candidates, found)
    requires NoRootFolders(candidates) || OneBufferOnly(candidates, maxBufferSize)
    ensures ListSafe(candidates, excludeProps, found, maxBufferSize)
  {
    hide ListSafe, Disjoint, SearchResults, FolderStream, NoRootFolders, OneBufferOnly, PathOrder, NoInversion;
    SufficientOrder(candidates, maxBufferSize);
    DeleteIsSafeIff(candidates, excludeProps, maxBufferSize);
  }

  // ----- Exactness -----

  /** The final list covers exactly the paths of the wanted candidates. */
  ghost predicate Exact(candidates: seq<ResultItem>, excludeProps: string, found: seq<ResultItem>, maxBufferSize: nat) {
    forall path :: Covered(PathsToDelete(candidates, excludeProps, found, maxBufferSize), path)
                   <==> exists x :: Wanted(x, candidates, found) && CoversPath(x, path)
  }

  lemma InversionNotExact(candidates: seq<ResultItem>, excludeProps: string, maxBufferSize: nat) returns (f: ResultItem)
    requires SearchResults(candidates) && excludeProps != "" && !NoInversion(FolderStream(candidates, maxBufferSize))
    ensures WellFormed(f) && !Exact(candidates, excludeProps, [f], maxBufferSize)
  {
    hide FolderStream, PathsToDelete, WellFormed, NoInversion, RepoRoot, Covered, GetItemRelativePath, GetSortKey;
    f := InversionCovers(candidates, excludeProps, maxBufferSize);
    var path := GetItemRelativePath(f);
    forall x | x in candidates && CoversPath(x, path)
      ensures !Wanted(x, candidates, [f])
    {
      CoveringTakes(x, f);
      assert f in [f];
      if !IsFolder(x) {
        CandidateWellFormed(candidates, x);
        OtherNameOtherPath(x, f);
      }
    }
  }

  /** A file in the folder's neighbour, whose name the folder's name starts. */
  function NeighbourFile(d: ResultItem): ResultItem {
    FileIn(d.(name := d.name + "b"), "x")
  }

  lemma NeighbourKeys(d: ResultItem)
    requires WellFormed(d) && IsFolder(d) && d.path == "."
    ensures WellFormed(NeighbourFile(d)) && !IsFolder(NeighbourFile(d))
    ensures GetItemRelativeLocation(NeighbourFile(d)) == d.repo + "/" + d.name + "b/"
    ensures GetItemRelativePath(NeighbourFile(d)) == d.repo + "/" + d.name + "b/x"
  {
    hide GetItemRelativePath, GetItemRelativeLocation, GetSortKey;
    var e := d.(name := d.name + "b");
    assert e.name[|d.name|] == 'b' && Segment(e.name);
    Keys(e);
    FileInFolder(e, "x");
    assert Location(e) + e.name + "/" == d.repo + "/" + d.name + "b/";
    assert d.repo + "/" + d.name + "b/" + "x" == d.repo + "/" + d.name + "b/x";
  }

  /** In `repo/name/` only the slashes after the two names are slashes. */
  lemma TwoSlashes(repo: string, name: string, i: nat)
    requires '/' !in repo && '/' !in name
    requires var s := repo + "/" + name + "/"; i < |s| && s[i] == '/'
    ensures i == |repo| || i == |repo| + 1 + |name|
  {
    var s := repo + "/" + name + "/";
    assert forall j :: 0 <= j < |repo| ==> s[j] == repo[j] && repo[j] in repo;
    assert forall j :: 0 <= j < |name| ==> s[|repo| + 1 + j] == name[j] && name[j] in name;
    assert forall j :: |repo| < j < |s| - 1 ==> s[|repo| + 1 + (j - |repo| - 1)] == s[j];
  }

  /** A folder key that starts `repo/name/` is that key, and belongs to a root folder. */
  lemma KeyInRoot(repo: string, name: string, y: ResultItem)
    requires '/' !in repo && '/' !in name && WellFormed(y)
    requires HasPrefix(repo + "/" + name + "/", Location(y) + y.name + "/")
    ensures y.path == "." && Location(y) + y.name + "/" == repo + "/" + name + "/"
  {
    hide SegmentPath, Segment;
    var s, key := repo + "/" + name + "/", Location(y) + y.name + "/";
    assert key == s[..|key|];
    assert |y.repo| < |key| - 1;
    assert key[|y.repo|] == '/' && key[|key| - 1] == '/';
    assert s[|y.repo|] == '/' && s[|key| - 1] == '/';
    TwoSlashes(repo, name, |y.repo|);
    TwoSlashes(repo, name, |key| - 1);
    if y.path != "." {
      var k := |y.repo| + 1 + |y.path|;
      assert key[k] == '/' && k < |key| - 1;
      assert s[k] == '/';
      TwoSlashes(repo, name, k);
    }
  }

  /** What covers a root folder's own key is a folder with its path. */
  lemma RootKeyIsOwn(d: ResultItem, y: ResultItem)
    requires WellFormed(d) && IsFolder(d) && d.path == "." && WellFormed(y)
    requires CoversPath(y, GetSortKey(d))
    ensures IsFolder(y) && GetItemRelativePath(y) == GetItemRelativePath(d)
  {
    hide GetItemRelativePath, GetSortKey, SegmentPath, Location;
    Keys(d);
    Keys(y);
    RootLocation(d);
    if !IsFolder(y) {
      NameEnds(y);
    } else {
      KeyInRoot(d.repo, d.name, y);
      RootLocation(y);
      var p, q := Location(d) + d.name, Location(y) + y.name;
      assert (p + "/")[..|p|] == p && (q + "/")[..|q|] == q;
      assert p + "" == p && q + "" == q;
    }
  }

  lemma RootLocation(d: ResultItem)
    requires d.path == "."
    ensures Location(d) + d.name + "/" == d.repo + "/" + d.name + "/"
  {
    assert Location(d) == d.repo + "/";
  }

  lemma NameEnds(y: ResultItem)
    requires Segment(y.name)
    ensures var key := Location(y) + y.name + ""; key != "" && key[|key| - 1] != '/'
  {
    var key := Location(y) + y.name + "";
    assert key[|key| - 1] in y.name;
  }

  /** While the file stays ahead of every folder up to the last one with the path of `y`, no such folder is written. */
  lemma {:induction false} NotWritten(dir: ResultItem, dirs: seq<ResultItem>, f: ResultItem, y: ResultItem)
    requires HasPrefix(GetItemRelativeLocation(f), GetItemRelativePath(y)) && forall d :: d in dirs ==> d.name != "."
    requires var all := [dir] + dirs;
             forall i, k :: 0 <= i <= k < |all| && GetItemRelativePath(all[k]) == GetItemRelativePath(y) ==>
               Less(GetItemRelativePath(all[i]), GetItemRelativeLocation(f))
    ensures y !in Sweep(dir, GetItemRelativePath(dir), dirs, [f])
    decreases |dirs|
  {
    hide GetItemRelativePath, GetItemRelativeLocation, Less, HasPrefix;
    var all, path, location := [dir] + dirs, GetItemRelativePath(dir), GetItemRelativeLocation(f);
    assert [f][1..] == [];
    assert all[0] == dir && all[1..] == dirs;
    if HasPrefix(location, path) || Less(path, location) {
      if dirs != [] {
        assert [dirs[0]] + dirs[1..] == all[1..];
        NotWritten(dirs[0], dirs[1..], f, y);
      }
    } else {
      assert forall k :: 0 <= k < |all| ==> all[k] != y;
      assert Sweep(dir, path, dirs, [f]) == [dir] + dirs;
    }
  }

  /** A root folder is kept because of its neighbour's file. */
  lemma NeighbourKeepsFolder(dirs: seq<ResultItem>, d: ResultItem, y: ResultItem)
    requires FolderList(dirs) && NoInversion(dirs) && WellFormed(d) && IsFolder(d) && d.path == "."
    requires GetItemRelativePath(y) == GetItemRelativePath(d)
    ensures y !in SweepNext("", dirs, [NeighbourFile(d)])
  {
    hide GetItemRelativePath, GetItemRelativeLocation, GetSortKey, Less, HasPrefix, SegmentPath, Segment, NoInversion,
         Sweep;
    var f, p := NeighbourFile(d), GetItemRelativePath(d);
    NeighbourKeys(d);
    Keys(d);
    NeighbourOrder(p);
    assert p == d.repo + "/" + d.name;
    assert GetItemRelativeLocation(f) == p + "b/";
    forall i, k | 0 <= i <= k < |dirs| && GetItemRelativePath(dirs[k]) == p
      ensures Less(GetItemRelativePath(dirs[i]), p + "b/")
    {
      if i < k {
        BeforeRootFolder(dirs, i, k, d);
      }
    }
    FolderNames(dirs);
    if dirs != [] {
      assert dirs == [dirs[0]] + dirs[1..];
      NotWritten(dirs[0], dirs[1..], f, y);
    }
  }

  lemma FolderNames(dirs: seq<ResultItem>)
    requires FolderList(dirs)
    ensures forall x :: x in dirs ==> x.name != "."
  {
    hide SegmentPath;
  }

  lemma {:induction false} NeighbourOrder(p: string)
    ensures Less(p, p + "b/") && HasPrefix(p + "b/", p)
    ensures Less(p + "/", p + "b/")
  {
    if p != "" {
      NeighbourOrder(p[1..]);
      assert (p + "b/")[1..] == p[1..] + "b/" && (p + "/")[1..] == p[1..] + "/";
    }
  }

  lemma BeforeRootFolder(dirs: seq<ResultItem>, i: nat, k: nat, d: ResultItem)
    requires FolderList(dirs) && NoInversion(dirs) && i < k < |dirs| && WellFormed(d) && IsFolder(d) && d.path == "."
    requires GetItemRelativePath(dirs[k]) == GetItemRelativePath(d)
    ensures Less(GetItemRelativePath(dirs[i]), GetItemRelativePath(d) + "b/")
  {
    hide GetItemRelativePath, GetSortKey, Less, SegmentPath;
    var e, p := dirs[k], GetItemRelativePath(d);
    Keys(d);
    Keys(e);
    assert p[|p| - 1] in d.name;
    assert e.path == ".";
    assert GetSortKey(e) == p + "/";
    assert AtMost(GetItemRelativePath(dirs[i]), p + "/");
    NeighbourOrder(p);
    LessTotal(GetItemRelativePath(dirs[i]), p + "/");
    if Less(GetItemRelativePath(dirs[i]), p + "/") {
      LessTransitive(GetItemRelativePath(dirs[i]), p + "/", p + "b/");
    }
  }

  lemma NeighbourNotHeld(d: ResultItem)
    requires WellFormed(d) && IsFolder(d) && d.path == "."
    ensures !HoldsKept(d, [NeighbourFile(d)]) && CoversPath(d, GetSortKey(d))
  {
    hide GetItemRelativePath, GetSortKey, SegmentPath;
    Keys(d);
    NeighbourKeys(d);
    var key, n, f := GetSortKey(d), |d.repo + "/" + d.name|, NeighbourFile(d);
    assert key[n] == '/';
    assert GetItemRelativePath(f)[n] == 'b';
    DiffersAt(GetItemRelativePath(f), key, n);
    SelfPrefix(key);
  }

  lemma DiffersAt(s: string, t: string, n: nat)
    requires n < |s| && n < |t| && s[n] != t[n]
    ensures !HasPrefix(s, t)
  {
    if |t| <= |s| {
      assert s[..|t|][n] == s[n];
    }
  }

  /** For the candidate root folder `d` the final list misses its path, although it holds no file to keep. */
  lemma RootFolderNotExact(candidates: seq<ResultItem>, excludeProps: string, maxBufferSize: nat, d: ResultItem)
    requires SearchResults(candidates) && excludeProps != "" && NoInversion(FolderStream(candidates, maxBufferSize))
    requires d in candidates && IsCandidate(d, "folder") && d.path == "."
    ensures WellFormed(NeighbourFile(d)) && !Exact(candidates, excludeProps, [NeighbourFile(d)], maxBufferSize)
    ensures !HoldsKept(d, [NeighbourFile(d)])
    ensures !Covered(PathsToDelete(candidates, excludeProps, [NeighbourFile(d)], maxBufferSize), GetSortKey(d))
  {
    hide FolderStream, WellFormed, NoInversion, RepoRoot, Covered, CoversPath, GetItemRelativePath, GetSortKey,
         ToDelete, FoldersToDelete,
         TopChain, SortedByKey, HoldsKept, SearchResults;
    var f, key := NeighbourFile(d), GetSortKey(d);
    assert WellFormed(d) by {
      CandidateWellFormed(candidates, d);
    }
    NeighbourKeys(d);
    NeighbourNotHeld(d);
    var planned := ToDelete(candidates, excludeProps, [f], maxBufferSize);
    PlannedAreResults(candidates, excludeProps, [f], maxBufferSize);
    ReductionCovers(planned, key);
    CoveredMember(planned, key);
    forall y | y in planned
      ensures !CoversPath(y, key)
    {
      ToDeleteMembers(candidates, excludeProps, [f], maxBufferSize, y);
      RootFolderMissed(candidates, maxBufferSize, d, y);
    }
    assert Wanted(d, candidates, [f]) && CoversPath(d, key);
    assert !Covered(PathsToDelete(candidates, excludeProps, [f], maxBufferSize), key);
  }

  lemma CandidateWellFormed(candidates: seq<ResultItem>, d: ResultItem)
    requires SearchResults(candidates) && d in candidates && d.name != "."
    ensures WellFormed(d)
  {
    hide WellFormed;
  }

  lemma RootFolderMissed(candidates: seq<ResultItem>, maxBufferSize: nat, d: ResultItem, y: ResultItem)
    requires SearchResults(candidates) && NoInversion(FolderStream(candidates, maxBufferSize))
    requires WellFormed(d) && IsFolder(d) && d.path == "."
    requires y in candidates && (IsFolder(y) ==> y in FoldersToDelete(candidates, [NeighbourFile(d)], maxBufferSize))
    ensures !CoversPath(y, GetSortKey(d))
  {
    hide FolderStream, WellFormed, NoInversion, GetItemRelativePath, GetSortKey, SweepNext, HasPrefix, FilesToKeep,
         Segment;
    if CoversPath(y, GetSortKey(d)) {
      CandidateWellFormed(candidates, y);
      RootKeyIsOwn(d, y);
      FolderStreamFolders(candidates, maxBufferSize);
      SingleFileToKeep(NeighbourFile(d), maxBufferSize);
      NeighbourKeepsFolder(FolderStream(candidates, maxBufferSize), d, y);
    }
  }

  /** End-to-end, for every buffer size: the final list covers exactly the paths that it should, whatever the second
      search finds, if and only if no candidate folder lies at the root of a repository. */
  lemma DeleteIsExactIff(candidates: seq<ResultItem>, excludeProps: string, maxBufferSize: nat)
    requires SearchResults(candidates) && excludeProps != ""
    ensures (forall found :: SearchResults(found) ==> Exact(candidates, excludeProps, found, maxBufferSize))
            <==> NoRootFolders(candidates)
  {
    hide FolderStream, PathsToDelete, WellFormed, NoInversion, RepoRoot, Covered, CoversPath, Wanted, IsCandidate;
    if NoRootFolders(candidates) {
      forall found | SearchResults(found)
        ensures Exact(candidates, excludeProps, found, maxBufferSize)
      {
        forall path
          ensures Covered(PathsToDelete(candidates, excludeProps, found, maxBufferSize), path)
                  <==> exists x :: Wanted(x, candidates, found) && CoversPath(x, path)
        {
          DeleteIsExact(candidates, excludeProps, found, maxBufferSize, path);
        }
      }
    } else {
      hide Exact;
      var i :| 0 <= i < |candidates| && IsCandidate(candidates[i], "folder") && candidates[i].path == ".";
      var f: ResultItem;
      if NoInversion(FolderStream(candidates, maxBufferSize)) {
        RootFolderNotExact(candidates, excludeProps, maxBufferSize, candidates[i]);
        f := NeighbourFile(candidates[i]);
      } else {
        f := InversionNotExact(candidates, excludeProps, maxBufferSize);
      }
      assert SearchResults([f]);
    }
  }
}
