/** What the two-cursor sweep writes: on sorted folders exactly the unprotected ones, and in general a safe selection
    precisely when no folder comes too late. */
module DeleteSweep {
  import opened Text
  import opened StringOrder
  import opened ResultItems
  import opened DeleteUtils

  /** Some file lies in a location that starts with `path`. */
  ghost predicate Protected(path: string, files: seq<ResultItem>) {
    exists f :: f in files && HasPrefix(GetItemRelativeLocation(f), path)
  }

  ghost function Unprotected(dirs: seq<ResultItem>, files: seq<ResultItem>): seq<ResultItem> {
    if dirs == [] then []
    else (if Protected(GetItemRelativePath(dirs[0]), files) then [] else [dirs[0]]) + Unprotected(dirs[1..], files)
  }

  ghost predicate FileList(files: seq<ResultItem>) {
    forall f :: f in files ==> WellFormed(f) && !IsFolder(f)
  }

  ghost predicate FolderList(dirs: seq<ResultItem>) {
    forall d :: d in dirs ==> WellFormed(d) && IsFolder(d)
  }

  ghost predicate PathOrder(items: seq<ResultItem>) {
    forall i, j :: 0 <= i < j < |items| ==> AtMost(GetItemRelativePath(items[i]), GetItemRelativePath(items[j]))
  }

  lemma {:induction false} UnprotectedWithout(dirs: seq<ResultItem>, files: seq<ResultItem>)
    requires files != []
    requires forall d :: d in dirs ==> !HasPrefix(GetItemRelativeLocation(files[0]), GetItemRelativePath(d))
    ensures Unprotected(dirs, files) == Unprotected(dirs, files[1..])
  {
    hide GetItemRelativePath, GetItemRelativeLocation, HasPrefix;
    if dirs != [] {
      UnprotectedWithout(dirs[1..], files);
      var path := GetItemRelativePath(dirs[0]);
      if Protected(path, files) {
        var f :| f in files && HasPrefix(GetItemRelativeLocation(f), path);
        assert f in files[1..];
      }
    }
  }

  lemma {:induction false} UnprotectedAll(dirs: seq<ResultItem>)
    ensures Unprotected(dirs, []) == dirs
  {
    if dirs != [] {
      UnprotectedAll(dirs[1..]);
    }
  }

  /** A folder whose path sorts before the location of `f0` and that holds a file after `f0` also holds `f0`:
      the locations of the files are not sorted, but their paths are. */
  lemma LaterFile(path: string, f0: ResultItem, f: ResultItem)
    requires WellFormed(f0) && !IsFolder(f0) && WellFormed(f) && !IsFolder(f)
    requires AtMost(GetItemRelativePath(f0), GetItemRelativePath(f))
    requires Less(path, GetItemRelativeLocation(f0)) && HasPrefix(GetItemRelativeLocation(f), path)
    ensures HasPrefix(GetItemRelativeLocation(f0), path)
  {
    hide GetItemRelativePath, GetItemRelativeLocation, Less;
    var l0, p0 := GetItemRelativeLocation(f0), GetItemRelativePath(f0);
    var l, p := GetItemRelativeLocation(f), GetItemRelativePath(f);
    Keys(f0);
    Keys(f);
    assert HasPrefix(p0, l0) && HasPrefix(p, l);
    PrefixTransitive(path, l, p);
    PrefixFirst(l0, p0);
    LessTotal(path, l0);
    AtMostTransitive(path, l0, p0);
    PrefixInterval(path, p0, p);
    if |path| <= |l0| {
      assert p0[..|l0|][..|path|] == p0[..|path|];
    } else {
      assert p0[..|path|][..|l0|] == p0[..|l0|];
      PrefixFirst(l0, path);
    }
  }

  lemma NoLaterFile(path: string, files: seq<ResultItem>)
    requires files != [] && FileList(files) && PathOrder(files)
    requires Less(path, GetItemRelativeLocation(files[0])) && !HasPrefix(GetItemRelativeLocation(files[0]), path)
    ensures !Protected(path, files)
  {
    hide GetItemRelativePath, GetItemRelativeLocation, Less, HasPrefix, WellFormed;
    forall f | f in files
      ensures !HasPrefix(GetItemRelativeLocation(f), path)
    {
      var i :| 0 <= i < |files| && files[i] == f;
      LessTotal(GetItemRelativePath(f), GetItemRelativePath(f));
      if HasPrefix(GetItemRelativeLocation(f), path) {
        LaterFile(path, files[0], f);
      }
    }
  }

  /** A file left behind by a folder with path `path` lies in no folder that sorts at or after it. */
  lemma LeftBehind(path: string, location: string, later: string)
    requires AtMost(location, path) && !HasPrefix(location, path) && AtMost(path, later)
    ensures !HasPrefix(location, later)
  {
    if HasPrefix(location, later) {
      PathIsLocation(path, location, later);
    }
  }

  lemma PathIsLocation(path: string, location: string, later: string)
    requires AtMost(location, path) && AtMost(path, later) && HasPrefix(location, later)
    ensures HasPrefix(location, path)
  {
    PrefixFirst(later, location);
    AtMostTransitive(path, later, location);
    LessTotal(path, location);
  }

  lemma {:induction false} SweepFilters(dir: ResultItem, dirs: seq<ResultItem>, files: seq<ResultItem>)
    requires FileList(files) && PathOrder(files)
    requires PathOrder([dir] + dirs) && forall d :: d in dirs ==> d.name != "."
    ensures Sweep(dir, GetItemRelativePath(dir), dirs, files) == Unprotected([dir] + dirs, files)
    decreases |dirs|, |files|
  {
    hide GetItemRelativePath, GetItemRelativeLocation, Less, HasPrefix;
    var all, path := [dir] + dirs, GetItemRelativePath(dir);
    assert all[0] == dir && all[1..] == dirs;
    if files == [] {
      UnprotectedAll(all);
    } else {
      var location := GetItemRelativeLocation(files[0]);
      if HasPrefix(location, path) {
        assert Protected(path, files);
        SweepNextFilters(path, dirs, files);
      } else if Less(path, location) {
        NoLaterFile(path, files);
        SweepNextFilters(path, dirs, files);
      } else {
        forall d | d in all
          ensures !HasPrefix(location, GetItemRelativePath(d))
        {
          var i :| 0 <= i < |all| && all[i] == d;
          LessTotal(path, path);
          LeftBehind(path, location, GetItemRelativePath(d));
        }
        UnprotectedWithout(all, files);
        SweepFilters(dir, dirs, files[1..]);
      }
    }
  }

  lemma {:induction false} SweepNextFilters(previousPath: string, dirs: seq<ResultItem>, files: seq<ResultItem>)
    requires FileList(files) && PathOrder(files)
    requires PathOrder(dirs) && forall d :: d in dirs ==> d.name != "."
    ensures SweepNext(previousPath, dirs, files) == Unprotected(dirs, files)
    decreases |dirs|, -1
  {
    hide GetItemRelativePath;
    if dirs != [] {
      assert dirs == [dirs[0]] + dirs[1..];
      SweepFilters(dirs[0], dirs[1..], files);
    }
  }

  /** Safety and completeness on folders in path order: a candidate is written if and only if no protected file's
      location starts with its path, and the order is kept. */
  lemma SweepExact(dirs: seq<ResultItem>, files: seq<ResultItem>)
    requires FileList(files) && PathOrder(files)
    requires FolderList(dirs) && PathOrder(dirs)
    ensures SweepNext("", dirs, files) == Unprotected(dirs, files)
  {
    SweepNextFilters("", dirs, files);
  }

  lemma {:induction false} UnprotectedMember(dirs: seq<ResultItem>, files: seq<ResultItem>, d: ResultItem)
    ensures d in Unprotected(dirs, files) <==> d in dirs && !Protected(GetItemRelativePath(d), files)
  {
    hide GetItemRelativePath;
    if dirs != [] {
      UnprotectedMember(dirs[1..], files, d);
      assert dirs == [dirs[0]] + dirs[1..];
    }
  }

  // ----- Any order of folders -----

  /** No folder's contents sort before the path of a folder that precedes it. */
  ghost predicate NoInversion(dirs: seq<ResultItem>) {
    forall i, j :: 0 <= i < j < |dirs| ==> AtMost(GetItemRelativePath(dirs[i]), GetSortKey(dirs[j]))
  }

  ghost predicate Safe(written: seq<ResultItem>, files: seq<ResultItem>) {
    forall d :: d in written ==> !Protected(GetSortKey(d), files)
  }

  lemma PathPrefixOfKey(d: ResultItem)
    ensures HasPrefix(GetSortKey(d), GetItemRelativePath(d)) && AtMost(GetItemRelativePath(d), GetSortKey(d))
  {
    hide GetItemRelativePath;
    PrefixFirst(GetItemRelativePath(d), GetSortKey(d));
  }

  lemma {:induction false} SweepSubset(dir: ResultItem, path: string, dirs: seq<ResultItem>, files: seq<ResultItem>,
                                       d: ResultItem)
    requires d in Sweep(dir, path, dirs, files)
    ensures d == dir || d in dirs
    decreases |dirs|, |files|
  {
    hide GetItemRelativePath, GetItemRelativeLocation, Less, HasPrefix;
    if files != [] && !(d == dir) {
      var location := GetItemRelativeLocation(files[0]);
      if HasPrefix(location, path) || Less(path, location) {
        SweepSubset(dirs[0], if dirs[0].name == "." then path else GetItemRelativePath(dirs[0]), dirs[1..], files, d);
      } else {
        SweepSubset(dir, path, dirs, files[1..], d);
      }
    }
  }

  lemma {:induction false} SweepIsSafe(dir: ResultItem, dirs: seq<ResultItem>, files: seq<ResultItem>)
    requires FileList(files) && PathOrder(files)
    requires NoInversion([dir] + dirs) && forall d :: d in dirs ==> d.name != "."
    ensures Safe(Sweep(dir, GetItemRelativePath(dir), dirs, files), files)
    decreases |dirs|, |files|
  {
    hide GetItemRelativePath, GetItemRelativeLocation, GetSortKey, Less, HasPrefix;
    var all, path := [dir] + dirs, GetItemRelativePath(dir);
    if files != [] {
      var location := GetItemRelativeLocation(files[0]);
      if HasPrefix(location, path) || Less(path, location) {
        if dirs != [] {
          assert [dirs[0]] + dirs[1..] == all[1..];
          SweepIsSafe(dirs[0], dirs[1..], files);
        }
        if !HasPrefix(location, path) {
          NoLaterFile(path, files);
          ProtectedPath(dir, files);
        }
      } else {
        SweepIsSafe(dir, dirs, files[1..]);
        assert Sweep(dir, path, dirs, files) == Sweep(dir, path, dirs, files[1..]);
        forall d | d in Sweep(dir, path, dirs, files)
          ensures !Protected(GetSortKey(d), files)
        {
          SweepSubset(dir, path, dirs, files, d);
          assert d in all;
          var i :| 0 <= i < |all| && all[i] == d;
          PathPrefixOfKey(dir);
          assert all[0] == dir;
          assert i > 0 ==> AtMost(GetItemRelativePath(all[0]), GetSortKey(all[i]));
          LeftBehind(path, location, GetSortKey(d));
          SplitProtection(GetSortKey(d), files);
        }
      }
    }
  }

  lemma ProtectedPath(d: ResultItem, files: seq<ResultItem>)
    ensures Protected(GetSortKey(d), files) ==> Protected(GetItemRelativePath(d), files)
  {
    hide GetItemRelativePath, GetItemRelativeLocation, GetSortKey, HasPrefix;
    if Protected(GetSortKey(d), files) {
      var f :| f in files && HasPrefix(GetItemRelativeLocation(f), GetSortKey(d));
      PathPrefixOfKey(d);
      PrefixTransitive(GetItemRelativePath(d), GetSortKey(d), GetItemRelativeLocation(f));
    }
  }

  lemma SplitProtection(path: string, files: seq<ResultItem>)
    requires files != [] && !HasPrefix(GetItemRelativeLocation(files[0]), path) && !Protected(path, files[1..])
    ensures !Protected(path, files)
  {
    hide GetItemRelativeLocation, HasPrefix;
    assert forall f :: f in files ==> f == files[0] || f in files[1..];
  }

  /** A file directly in the folder. */
  function FileIn(d: ResultItem, name: string): ResultItem {
    ResultItem(d.repo, if d.path == "." then d.name else d.path + "/" + d.name, name, "file", "", [])
  }

  lemma FileInFolder(d: ResultItem, name: string)
    requires WellFormed(d) && IsFolder(d) && Segment(name)
    ensures var f := FileIn(d, name);
            WellFormed(f) && !IsFolder(f) && GetItemRelativeLocation(f) == GetSortKey(d)
            && GetItemRelativePath(f) == GetSortKey(d) + name
  {
    hide GetItemRelativePath, GetItemRelativeLocation, GetSortKey, SegmentPath, Segment;
    var f := FileIn(d, name);
    FileIsWellFormed(d, name);
    Keys(d);
    Keys(f);
    if d.path == "." {
      assert d.repo + "/" + "" + d.name + "/" == d.repo + "/" + (d.name + "/");
    } else {
      assert d.repo + "/" + (d.path + "/" + d.name + "/") == d.repo + "/" + (d.path + "/") + d.name + "/";
    }
  }

  lemma FileIsWellFormed(d: ResultItem, name: string)
    requires WellFormed(d) && Segment(name)
    ensures WellFormed(FileIn(d, name)) && FileIn(d, name).path != "."
  {
    hide SegmentPath;
    SegmentIsPath(d.name);
    if d.path != "." {
      SegmentPathJoin(d.path, d.name);
    }
  }

  /** Once a folder beyond the file has been met, everything after it is written. */
  lemma {:induction false} WrittenAfter(dir: ResultItem, dirs: seq<ResultItem>, f: ResultItem, i: nat, j: nat)
    requires i < j < |[dir] + dirs| && Less(GetItemRelativeLocation(f), GetItemRelativePath(([dir] + dirs)[i]))
    requires forall d :: d in dirs ==> d.name != "."
    ensures ([dir] + dirs)[j] in Sweep(dir, GetItemRelativePath(dir), dirs, [f])
    decreases |dirs|
  {
    hide GetItemRelativePath, GetItemRelativeLocation, Less;
    var all, path, location := [dir] + dirs, GetItemRelativePath(dir), GetItemRelativeLocation(f);
    assert [f][1..] == [];
    if HasPrefix(location, path) {
      PrefixFirst(path, location);
    }
    if Less(path, location) {
      LessTotal(path, location);
    }
    if i > 0 && (HasPrefix(location, path) || Less(path, location)) {
      assert [dirs[0]] + dirs[1..] == all[1..];
      WrittenAfter(dirs[0], dirs[1..], f, i - 1, j - 1);
    }
  }

  /** For every order of the folders: the sweep is safe whatever the protected files if and only if no folder's
      contents sort before the path of a folder that precedes it. */
  lemma SweepSafeIff(dirs: seq<ResultItem>)
    requires FolderList(dirs)
    ensures (forall files :: FileList(files) && PathOrder(files) ==> Safe(SweepNext("", dirs, files), files))
            <==> NoInversion(dirs)
  {
    hide GetItemRelativePath, GetItemRelativeLocation, GetSortKey, Less, HasPrefix, SegmentPath;
    assert forall d :: d in dirs ==> d.name != ".";
    if NoInversion(dirs) {
      forall files | FileList(files) && PathOrder(files)
        ensures Safe(SweepNext("", dirs, files), files)
      {
        if dirs != [] {
          assert dirs == [dirs[0]] + dirs[1..];
          SweepIsSafe(dirs[0], dirs[1..], files);
        }
      }
    } else {
      var f, d := UnsafeWitness(dirs, "x");
      assert !Safe(SweepNext("", dirs, [f]), [f]);
    }
  }

  /** A folder that comes too late is written although it holds a protected file. */
  lemma UnsafeWitness(dirs: seq<ResultItem>, name: string) returns (f: ResultItem, d: ResultItem)
    requires FolderList(dirs) && !NoInversion(dirs) && Segment(name)
    ensures f.name == name && WellFormed(f) && f.itemType == "file" && FileList([f]) && PathOrder([f])
    ensures d in SweepNext("", dirs, [f]) && IsFolder(d) && Protected(GetSortKey(d), [f])
  {
    hide GetItemRelativePath, GetItemRelativeLocation, GetSortKey, Less, HasPrefix, SegmentPath;
    assert forall d :: d in dirs ==> d.name != ".";
    var i, j :| 0 <= i < j < |dirs| && !AtMost(GetItemRelativePath(dirs[i]), GetSortKey(dirs[j]));
    d := dirs[j];
    f := FileIn(d, name);
    FileInFolder(d, name);
    assert dirs == [dirs[0]] + dirs[1..];
    WrittenAfter(dirs[0], dirs[1..], f, i, j);
    SelfPrefix(GetSortKey(d));
    assert f in [f] && FileList([f]);
  }

  lemma SelfPrefix(s: string)
    ensures HasPrefix(s, s)
  {
  }
}
