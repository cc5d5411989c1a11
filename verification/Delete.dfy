/** Which paths a delete by pattern removes (artifactory/services/delete.go): the search results, less the folders
    that hold artifacts with the excluded properties, reduced to their top-most items. */
module Delete {
  import opened Sequences
  import opened Wrappers
  import opened Text
  import opened StringOrder
  import opened SortBuffers
  import opened ContentReader
  import opened ReaderMerge
  import opened ResultItems
  import opened DeleteUtils
  import opened DeleteSweep
  import opened SearchUtil
  import opened DirReduction

  // ----- Specification -----

  function Buffered(items: seq<ResultItem>, candidateType: string, maxBufferSize: nat): seq<seq<ResultItem>> {
    SavedChunks(Chunks(Buffer(Candidates(items, candidateType), maxBufferSize)), GetItemRelativePath)
  }

  ghost function FolderStream(candidates: seq<ResultItem>, maxBufferSize: nat): seq<ResultItem> {
    MergeHeads(Buffered(candidates, "folder", maxBufferSize), GetSortKey, true)
  }

  ghost function FilesToKeep(found: seq<ResultItem>, maxBufferSize: nat): seq<ResultItem> {
    MergeHeads(Buffered(found, "file", maxBufferSize), GetSortKey, true)
  }

  ghost function FoldersToDelete(candidates: seq<ResultItem>, found: seq<ResultItem>,
                                 maxBufferSize: nat): seq<ResultItem>
  {
    SweepNext("", FolderStream(candidates, maxBufferSize), FilesToKeep(found, maxBufferSize))
  }

  ghost function ToDelete(candidates: seq<ResultItem>, excludeProps: string, found: seq<ResultItem>,
                          maxBufferSize: nat): seq<ResultItem>
  {
    if excludeProps == "" || candidates == [] then candidates
    else Others(candidates, "folder") + FoldersToDelete(candidates, found, maxBufferSize)
  }

  ghost function SortedByKey(items: seq<ResultItem>): seq<ResultItem> {
    InKeyOrder(items, true)
  }

  ghost function PathsToDelete(candidates: seq<ResultItem>, excludeProps: string, found: seq<ResultItem>,
                               maxBufferSize: nat): seq<ResultItem>
  {
    TopChain(SortedByKey(ToDelete(candidates, excludeProps, found, maxBufferSize)), "")
  }

  // ----- The code -----

  method GetSortedArtifactsToNotDelete(found: seq<ResultItem>, maxBufferSize: nat) returns (reader: seq<ResultItem>)
    ensures reader == FilesToKeep(found, maxBufferSize)
  {
    hide GetSortKey;
    var sortedResults, _ := FilterCandidateToBeDeleted(found, "file", maxBufferSize);
    reader := MergeSortedReaders(sortedResults, GetSortKey, true);
  }

  /** `found` is what the second search, for artifacts with the excluded properties, returns. */
  method RemoveNotToBeDeletedDirs(deleteCandidates: seq<ResultItem>, excludeProps: string, found: seq<ResultItem>,
                                  maxBufferSize: nat)
    returns (reader: Option<seq<ResultItem>>)
    ensures reader == if excludeProps == "" || deleteCandidates == [] then None
                      else Some(ToDelete(deleteCandidates, excludeProps, found, maxBufferSize))
  {
    hide GetSortKey, Others, SweepNext, FilesToKeep, MergeHeads;
    if excludeProps == "" || |deleteCandidates| == 0 {
      return None;
    }
    var bufferFiles, resultWriter := FilterCandidateToBeDeleted(deleteCandidates, "folder", maxBufferSize);
    if |bufferFiles| > 0 {
      var artifactNotToBeDeleteReader := GetSortedArtifactsToNotDelete(found, maxBufferSize);
      var dirs := WriteCandidateDirsToBeDeleted(bufferFiles, artifactNotToBeDeleteReader);
      resultWriter := resultWriter + dirs;
    } else {
      NoBuffers(FilesToKeep(found, maxBufferSize));
      assert resultWriter + [] == resultWriter;
    }
    return Some(resultWriter);
  }

  lemma NoBuffers(files: seq<ResultItem>)
    ensures MergeHeads<ResultItem>([], GetSortKey, true) == [] && SweepNext("", [], files) == []
  {
  }

  method ReduceTopChainDirResult(searchResults: seq<ResultItem>, maxBufferSize: nat) returns (reader: seq<ResultItem>)
    ensures reader == TopChain(SortedByKey(searchResults), "")
  {
    hide GetSortKey;
    var sortedFile := SortContentReaderByCalculatedKey(searchResults, GetSortKey, maxBufferSize, true);
    reader := FilterTopChainResults(sortedFile);
  }

  method GetPathsToDelete(tempResultItems: seq<ResultItem>, excludeProps: string, found: seq<ResultItem>,
                          maxBufferSize: nat)
    returns (resultItems: seq<ResultItem>)
    ensures resultItems == PathsToDelete(tempResultItems, excludeProps, found, maxBufferSize)
  {
    hide GetSortKey, TopChain, SortedByKey, Others, FoldersToDelete;
    var toBeDeletedDirs := RemoveNotToBeDeletedDirs(tempResultItems, excludeProps, found, maxBufferSize);
    if toBeDeletedDirs.None? {
      toBeDeletedDirs := Some(tempResultItems);
    }
    resultItems := ReduceTopChainDirResult(toBeDeletedDirs.value, maxBufferSize);
  }

  // ----- What the buffered streams hold -----

  /** A repository's own root folder. */
  predicate RepoRoot(x: ResultItem) {
    Segment(x.repo) && x.path == "." && x.name == "." && IsFolder(x)
  }

  ghost predicate SearchResults(items: seq<ResultItem>) {
    forall x :: x in items ==> WellFormed(x) || RepoRoot(x)
  }

  lemma StreamMembers(items: seq<ResultItem>, candidateType: string, maxBufferSize: nat)
    ensures var stream := MergeHeads(Buffered(items, candidateType, maxBufferSize), GetSortKey, true);
            && (forall x :: x in stream ==> x in items && IsCandidate(x, candidateType))
            && (forall c :: c in items && IsCandidate(c, candidateType) ==>
                  exists x :: x in stream && GetItemRelativePath(x) == GetItemRelativePath(c))
  {
    hide GetItemRelativePath, GetSortKey, MergeHeads, Flat, Buffer, IsCandidate;
    var cs := Candidates(items, candidateType);
    var saved := Buffered(items, candidateType, maxBufferSize);
    ChunksFlat(cs, maxBufferSize);
    SavedMembers(Chunks(Buffer(cs, maxBufferSize)), GetItemRelativePath);
    var stream := MergeHeads(saved, GetSortKey, true);
    forall x
      ensures x in stream <==> x in Flat(saved)
    {
      MergeMember(saved, GetSortKey, true, x);
      FlatMember(saved, x);
    }
    forall x
      ensures x in cs <==> x in items && IsCandidate(x, candidateType)
    {
      CandidateMember(items, candidateType, x);
    }
  }

  /** When paths and sort keys agree on the candidates, the stream is in path order. */
  lemma StreamOrder(items: seq<ResultItem>, candidateType: string, maxBufferSize: nat)
    requires forall x :: x in items && IsCandidate(x, candidateType) ==> GetSortKey(x) == GetItemRelativePath(x)
    ensures PathOrder(MergeHeads(Buffered(items, candidateType, maxBufferSize), GetSortKey, true))
  {
    hide GetItemRelativePath, GetSortKey, MergeHeads, Flat, Buffer, IsCandidate, Less;
    var cs := Candidates(items, candidateType);
    var saved := Buffered(items, candidateType, maxBufferSize);
    ChunksFlat(cs, maxBufferSize);
    SavedMembers(Chunks(Buffer(cs, maxBufferSize)), GetItemRelativePath);
    forall x | x in Flat(saved)
      ensures GetSortKey(x) == GetItemRelativePath(x)
    {
      CandidateMember(items, candidateType, x);
    }
    forall i | 0 <= i < |saved|
      ensures SortedBy(saved[i], GetSortKey, true)
    {
      forall k | 0 <= k < |saved[i]|
        ensures GetSortKey(saved[i][k]) == GetItemRelativePath(saved[i][k])
      {
        FlatMember(saved, saved[i][k]);
      }
    }
    MergeSorts(saved, GetSortKey, true);
    var stream := MergeHeads(saved, GetSortKey, true);
    forall k | 0 <= k < |stream|
      ensures GetSortKey(stream[k]) == GetItemRelativePath(stream[k])
    {
      MergeMember(saved, GetSortKey, true, stream[k]);
      FlatMember(saved, stream[k]);
    }
  }

  lemma FilesToKeepSorted(found: seq<ResultItem>, maxBufferSize: nat)
    requires SearchResults(found)
    ensures FileList(FilesToKeep(found, maxBufferSize)) && PathOrder(FilesToKeep(found, maxBufferSize))
  {
    hide GetItemRelativePath, MergeHeads, Buffered, WellFormed;
    StreamMembers(found, "file", maxBufferSize);
    StreamOrder(found, "file", maxBufferSize);
  }

  lemma FolderStreamFolders(candidates: seq<ResultItem>, maxBufferSize: nat)
    requires SearchResults(candidates)
    ensures FolderList(FolderStream(candidates, maxBufferSize))
  {
    hide GetItemRelativePath, MergeHeads, Buffered, WellFormed;
    StreamMembers(candidates, "folder", maxBufferSize);
    forall d | d in FolderStream(candidates, maxBufferSize)
      ensures WellFormed(d) && IsFolder(d)
    {
      assert d in candidates && IsCandidate(d, "folder");
    }
  }

  // ----- Safety -----

  /** The folder holds, at any depth, a file that has the excluded properties. */
  ghost predicate HoldsKept(d: ResultItem, found: seq<ResultItem>) {
    exists f :: f in found && f.itemType == "file" && HasPrefix(GetItemRelativePath(f), GetSortKey(d))
  }

  lemma PrefixOfLocation(d: ResultItem, f: ResultItem)
    requires WellFormed(f) && !IsFolder(f) && IsFolder(d)
    ensures HasPrefix(GetItemRelativePath(f), GetSortKey(d)) <==> HasPrefix(GetItemRelativeLocation(f), GetSortKey(d))
  {
    hide GetItemRelativePath, GetItemRelativeLocation, SegmentPath;
    var key, path, location := GetSortKey(d), GetItemRelativePath(f), GetItemRelativeLocation(f);
    Keys(f);
    assert path == location + f.name;
    if HasPrefix(location, key) {
      PrefixTransitive(key, location, path);
    }
    if HasPrefix(path, key) {
      assert key[|key| - 1] == '/' && path[..|key|][|key| - 1] == path[|key| - 1];
      assert forall i :: |location| <= i < |path| ==> path[i] == f.name[i - |location|] && path[i] in f.name;
      assert location[..|key|] == path[..|key|];
    }
  }

  lemma ProtectedHolds(d: ResultItem, found: seq<ResultItem>, maxBufferSize: nat)
    requires SearchResults(found) && IsFolder(d) && Protected(GetSortKey(d), FilesToKeep(found, maxBufferSize))
    ensures HoldsKept(d, found)
  {
    hide GetItemRelativePath, GetItemRelativeLocation, GetSortKey, HasPrefix, FilesToKeep, WellFormed;
    FilesToKeepMembers(found, maxBufferSize);
    var f :| f in FilesToKeep(found, maxBufferSize) && HasPrefix(GetItemRelativeLocation(f), GetSortKey(d));
    PrefixOfLocation(d, f);
  }

  lemma HoldsProtected(d: ResultItem, found: seq<ResultItem>, maxBufferSize: nat, f: ResultItem)
    requires SearchResults(found) && IsFolder(d)
    requires f in found && f.itemType == "file" && HasPrefix(GetItemRelativePath(f), GetSortKey(d))
    ensures Protected(GetSortKey(d), FilesToKeep(found, maxBufferSize))
  {
    hide GetItemRelativePath, GetItemRelativeLocation, GetSortKey, HasPrefix, FilesToKeep, WellFormed, SearchResults,
         IsFolder;
    var g := KeptLike(found, maxBufferSize, f);
    FoundFile(found, f);
    FoundFile(found, g);
    LocationOfPath(f, g);
    PrefixOfLocation(d, f);
  }

  lemma KeptLike(found: seq<ResultItem>, maxBufferSize: nat, f: ResultItem) returns (g: ResultItem)
    requires f in found && f.itemType == "file"
    ensures g in FilesToKeep(found, maxBufferSize) && g in found && g.itemType == "file"
    ensures GetItemRelativePath(g) == GetItemRelativePath(f)
  {
    hide GetItemRelativePath, FilesToKeep;
    FilesToKeepMembers(found, maxBufferSize);
    g :| g in FilesToKeep(found, maxBufferSize) && GetItemRelativePath(g) == GetItemRelativePath(f);
  }

  lemma FoundFile(found: seq<ResultItem>, f: ResultItem)
    requires SearchResults(found) && f in found && f.itemType == "file"
    ensures WellFormed(f) && !IsFolder(f)
  {
    hide WellFormed;
  }

  lemma FilesToKeepMembers(found: seq<ResultItem>, maxBufferSize: nat)
    ensures forall x :: x in FilesToKeep(found, maxBufferSize) ==> x in found && x.itemType == "file"
    ensures forall f :: f in found && f.itemType == "file" ==>
              exists x :: x in FilesToKeep(found, maxBufferSize) && GetItemRelativePath(x) == GetItemRelativePath(f)
  {
    hide GetItemRelativePath, MergeHeads, Buffered;
    StreamMembers(found, "file", maxBufferSize);
    assert forall f :: f in found && f.itemType == "file" ==> IsCandidate(f, "file");
  }

  lemma HeldFile(d: ResultItem, found: seq<ResultItem>) returns (f: ResultItem)
    requires HoldsKept(d, found)
    ensures f in found && f.itemType == "file" && HasPrefix(GetItemRelativePath(f), GetSortKey(d))
  {
    hide GetItemRelativePath, GetSortKey, HasPrefix;
    f :| f in found && f.itemType == "file" && HasPrefix(GetItemRelativePath(f), GetSortKey(d));
  }

  /** The sorted stream of files protects a folder exactly when the search found a file inside it. */
  lemma ProtectedIffHolds(d: ResultItem, found: seq<ResultItem>, maxBufferSize: nat)
    requires SearchResults(found) && IsFolder(d)
    ensures Protected(GetSortKey(d), FilesToKeep(found, maxBufferSize)) <==> HoldsKept(d, found)
  {
    hide GetSortKey, FilesToKeep, Protected, HoldsKept;
    if Protected(GetSortKey(d), FilesToKeep(found, maxBufferSize)) {
      ProtectedHolds(d, found, maxBufferSize);
    }
    if HoldsKept(d, found) {
      var f := HeldFile(d, found);
      HoldsProtected(d, found, maxBufferSize, f);
    }
  }

  ghost predicate FoldersSafe(candidates: seq<ResultItem>, found: seq<ResultItem>, maxBufferSize: nat) {
    forall d :: d in FoldersToDelete(candidates, found, maxBufferSize) ==> !HoldsKept(d, found)
  }

  lemma WrittenAreFolders(candidates: seq<ResultItem>, found: seq<ResultItem>, maxBufferSize: nat)
    ensures forall d :: d in FoldersToDelete(candidates, found, maxBufferSize) ==>
              d in candidates && IsFolder(d) && d.name != "."
  {
    hide GetItemRelativePath, GetSortKey, MergeHeads, Buffered, Sweep;
    StreamMembers(candidates, "folder", maxBufferSize);
    var dirs, files := FolderStream(candidates, maxBufferSize), FilesToKeep(found, maxBufferSize);
    forall d | d in FoldersToDelete(candidates, found, maxBufferSize)
      ensures d in dirs
    {
      SweepSubset(dirs[0], if dirs[0].name == "." then "" else GetItemRelativePath(dirs[0]), dirs[1..], files, d);
    }
  }

  /** For any candidates: no folder that holds a file to keep is ever deleted, whatever the second search finds,
      if and only if the buffered and merged folders have no inversion. */
  lemma FoldersSafeIff(candidates: seq<ResultItem>, maxBufferSize: nat)
    requires SearchResults(candidates)
    ensures (forall found :: SearchResults(found) ==> FoldersSafe(candidates, found, maxBufferSize))
            <==> NoInversion(FolderStream(candidates, maxBufferSize))
  {
    hide GetItemRelativePath, GetItemRelativeLocation, GetSortKey, HasPrefix, MergeHeads, Buffered, WellFormed,
         SweepNext, Less;
    var dirs := FolderStream(candidates, maxBufferSize);
    FolderStreamFolders(candidates, maxBufferSize);
    SweepSafeIff(dirs);
    if NoInversion(dirs) {
      forall found | SearchResults(found)
        ensures FoldersSafe(candidates, found, maxBufferSize)
      {
        FilesToKeepSorted(found, maxBufferSize);
        WrittenAreFolders(candidates, found, maxBufferSize);
        forall d | d in FoldersToDelete(candidates, found, maxBufferSize)
          ensures !HoldsKept(d, found)
        {
          ProtectedIffHolds(d, found, maxBufferSize);
        }
      }
    } else {
      var f, d := UnsafeWitness(dirs, "x");
      SingleFileToKeep(f, maxBufferSize);
      ProtectedIffHolds(d, [f], maxBufferSize);
      assert !FoldersSafe(candidates, [f], maxBufferSize);
    }
  }

  lemma SavedOne(f: ResultItem)
    ensures SavedChunk([f], GetItemRelativePath) == [f]
  {
    hide GetItemRelativePath, Saved, SortedBy, ByKey;
    SavedChunkFacts([f], GetItemRelativePath);
    var saved := SavedChunk([f], GetItemRelativePath);
    OnlyMember(saved, f);
  }

  lemma OnlyMember<T>(s: seq<T>, x: T)
    requires |s| == 1 && forall y :: y in s ==> y in [x]
    ensures s == [x]
  {
    assert s[0] in s;
  }

  lemma SingleFileToKeep(f: ResultItem, maxBufferSize: nat)
    requires f.itemType == "file"
    ensures FilesToKeep([f], maxBufferSize) == [f]
  {
    hide GetItemRelativePath, GetSortKey, MergeHeads, SavedChunk, Buffer;
    assert [f][..0] == [];
    assert Candidates([f], "file") == [f];
    OneFile(f, maxBufferSize);
    SavedOne(f);
    assert Buffered([f], "file", maxBufferSize) == [[f]];
    MergeSingle([f], GetSortKey, true);
  }

  lemma OneFile(f: ResultItem, maxBufferSize: nat)
    ensures Chunks(Buffer([f], maxBufferSize)) == [[f]]
  {
    assert [f][..0] == [];
    assert [] + [f] == [f];
  }

  /** Two conditions a caller can check: no candidate folder lies at a repository's root, or all candidate folders fit
      one buffer. */
  predicate NoRootFolders(candidates: seq<ResultItem>) {
    forall i :: 0 <= i < |candidates| && IsCandidate(candidates[i], "folder") ==> candidates[i].path != "."
  }

  predicate OneBufferOnly(candidates: seq<ResultItem>, maxBufferSize: nat) {
    |Candidates(candidates, "folder")| <= maxBufferSize || maxBufferSize == 0
  }

  lemma NoRootKeys(candidates: seq<ResultItem>)
    requires SearchResults(candidates) && NoRootFolders(candidates)
    ensures forall x :: x in candidates && IsCandidate(x, "folder") ==> GetSortKey(x) == GetItemRelativePath(x)
  {
    hide GetItemRelativePath, GetSortKey, SegmentPath;
    forall x | x in candidates && IsCandidate(x, "folder")
      ensures GetSortKey(x) == GetItemRelativePath(x)
    {
      Keys(x);
    }
  }

  lemma SufficientOrder(candidates: seq<ResultItem>, maxBufferSize: nat)
    requires SearchResults(candidates)
    requires NoRootFolders(candidates) || OneBufferOnly(candidates, maxBufferSize)
    ensures PathOrder(FolderStream(candidates, maxBufferSize)) && NoInversion(FolderStream(candidates, maxBufferSize))
  {
    hide GetItemRelativePath, GetSortKey, MergeHeads, Buffer, Less, SavedChunk;
    var dirs := FolderStream(candidates, maxBufferSize);
    if NoRootFolders(candidates) {
      NoRootKeys(candidates);
      StreamOrder(candidates, "folder", maxBufferSize);
    } else {
      SingleBufferOrder(candidates, maxBufferSize);
    }
    forall i, j | 0 <= i < j < |dirs|
      ensures AtMost(GetItemRelativePath(dirs[i]), GetSortKey(dirs[j]))
    {
      PathPrefixOfKey(dirs[j]);
      AtMostTransitive(GetItemRelativePath(dirs[i]), GetItemRelativePath(dirs[j]), GetSortKey(dirs[j]));
    }
  }

  lemma SingleBufferOrder(candidates: seq<ResultItem>, maxBufferSize: nat)
    requires OneBufferOnly(candidates, maxBufferSize)
    ensures PathOrder(FolderStream(candidates, maxBufferSize))
  {
    hide GetItemRelativePath, GetSortKey, MergeHeads, Buffer, Less, SavedChunk;
    var cs := Candidates(candidates, "folder");
    OneBuffer(cs, maxBufferSize);
    if cs == [] {
      NoBuffers([]);
      assert Buffered(candidates, "folder", maxBufferSize) == [];
    } else {
      var saved := SavedChunk(cs, GetItemRelativePath);
      assert Buffered(candidates, "folder", maxBufferSize) == [saved];
      MergeSingle(saved, GetSortKey, true);
      SavedChunkFacts(cs, GetItemRelativePath);
    }
  }

  // ----- The reduced list -----

  lemma SortedByKeyFacts(items: seq<ResultItem>)
    ensures KeysIncrease(SortedByKey(items))
    ensures forall x :: x in SortedByKey(items) ==> x in items
    ensures forall y :: y in items ==> exists x :: x in SortedByKey(items) && GetSortKey(x) == GetSortKey(y)
  {
    hide GetSortKey, Less, InKeyOrder;
    var sorted := SortedByKey(items);
    InKeyOrderFacts(items, true);
    forall i, j | 0 <= i < j < |sorted|
      ensures Less(GetSortKey(sorted[i]), GetSortKey(sorted[j]))
    {
      assert Before(GetSortKey(sorted[i]), GetSortKey(sorted[j]), true);
    }
  }

  lemma CoveredMember(items: seq<ResultItem>, path: string)
    ensures Covered(items, path) <==> exists x :: x in items && CoversPath(x, path)
  {
    hide CoversPath;
    if x :| x in items && CoversPath(x, path) {
      var i :| 0 <= i < |items| && items[i] == x;
    }
  }

  /** Items with the same sort key cover the same paths. */
  lemma SameKeySameCover(x: ResultItem, y: ResultItem, path: string)
    requires WellFormed(y) && (WellFormed(x) || RepoRoot(x)) && GetSortKey(x) == GetSortKey(y)
    requires CoversPath(y, path)
    ensures CoversPath(x, path)
  {
    hide GetItemRelativePath, GetSortKey, SegmentPath;
    Keys(y);
    if RepoRoot(x) {
      RootKey(x, y);
    } else {
      Keys(x);
      var key := GetSortKey(x);
      assert !IsFolder(x) ==> key[|key| - 1] in x.name;
      assert !IsFolder(y) ==> key[|key| - 1] in y.name;
    }
  }

  lemma RootKey(x: ResultItem, y: ResultItem)
    requires RepoRoot(x) && WellFormed(y)
    ensures GetSortKey(x) != GetSortKey(y)
  {
    hide Clean, SegmentPath;
    JoinTwo(x.repo, ".");
    CleanDot(x.repo);
    assert x.repo + "/" + "." == x.repo + "/.";
    hide JoinPath;
    assert !HasSuffix(x.repo, "/") by {
      assert x.repo[|x.repo| - 1..] == [x.repo[|x.repo| - 1]] && x.repo[|x.repo| - 1] in x.repo;
    }
    assert GetSortKey(x) == x.repo + "/";
    hide GetSortKey, GetItemRelativePath;
    Keys(y);
    var k := GetSortKey(y);
    assert k[|y.repo|] == '/' && |k| > |y.repo| + 1;
    assert forall i :: 0 <= i < |x.repo| ==> (x.repo + "/")[i] == x.repo[i] && x.repo[i] in x.repo;
  }

  lemma ToDeleteMembers(candidates: seq<ResultItem>, excludeProps: string, found: seq<ResultItem>, maxBufferSize: nat,
                        x: ResultItem)
    requires x in ToDelete(candidates, excludeProps, found, maxBufferSize)
    ensures x in candidates
    ensures excludeProps != "" && IsFolder(x) ==> x in FoldersToDelete(candidates, found, maxBufferSize)
  {
    hide FoldersToDelete, Candidates, Others;
    CandidateMember(candidates, "folder", x);
    WrittenAreFolders(candidates, found, maxBufferSize);
  }

  lemma DeletedMembers(candidates: seq<ResultItem>, excludeProps: string, found: seq<ResultItem>, maxBufferSize: nat,
                       x: ResultItem)
    requires x in PathsToDelete(candidates, excludeProps, found, maxBufferSize)
    ensures x in candidates && x.name != "."
    ensures excludeProps != "" && IsFolder(x) ==> x in FoldersToDelete(candidates, found, maxBufferSize)
  {
    hide FoldersToDelete, SortedByKey, ToDelete, TopChain;
    var planned := ToDelete(candidates, excludeProps, found, maxBufferSize);
    TopChainMember(SortedByKey(planned), "", x);
    SortedByKeyFacts(planned);
    ToDeleteMembers(candidates, excludeProps, found, maxBufferSize, x);
  }

  /** The item is the file, or a folder that contains it. */
  predicate Takes(x: ResultItem, f: ResultItem) {
    if IsFolder(x) then HasPrefix(GetItemRelativePath(f), GetSortKey(x))
    else GetItemRelativePath(x) == GetItemRelativePath(f)
  }

  /** No candidate file is one of the files to keep. */
  ghost predicate Disjoint(candidates: seq<ResultItem>, found: seq<ResultItem>) {
    forall c: ResultItem, f: ResultItem :: c in candidates && !IsFolder(c) && f in found && f.itemType == "file" ==>
      GetItemRelativePath(c) != GetItemRelativePath(f)
  }

  /** End-to-end safety: nothing in the final list is, or is a folder that contains, a file to keep. */
  lemma DeleteIsSafe(candidates: seq<ResultItem>, excludeProps: string, found: seq<ResultItem>, maxBufferSize: nat,
                     x: ResultItem, f: ResultItem)
    requires SearchResults(candidates) && SearchResults(found) && excludeProps != "" && Disjoint(candidates, found)
    requires NoInversion(FolderStream(candidates, maxBufferSize))
    requires x in PathsToDelete(candidates, excludeProps, found, maxBufferSize)
    requires f in found && f.itemType == "file"
    ensures !Takes(x, f)
  {
    hide GetItemRelativePath, GetSortKey, HasPrefix, PathsToDelete, FoldersToDelete, WellFormed, FolderStream;
    DeletedMembers(candidates, excludeProps, found, maxBufferSize, x);
    FoldersSafeIff(candidates, maxBufferSize);
    assert FoldersSafe(candidates, found, maxBufferSize);
    if IsFolder(x) {
      assert !HoldsKept(x, found);
    }
  }

  /** The reduction changes what is listed, not what is deleted. */
  lemma ReductionCovers(items: seq<ResultItem>, path: string)
    requires SearchResults(items)
    ensures Covered(TopChain(SortedByKey(items), ""), path) <==> Covered(items, path)
  {
    hide GetSortKey, SortedByKey, CoversPath, Covered, TopChain, WellFormed, SearchResults;
    SortedByKeyFacts(items);
    TopChainCovers(SortedByKey(items), path);
    if Covered(SortedByKey(items), path) {
      CoveredBySorted(items, path);
    }
    if Covered(items, path) {
      CoveredMember(items, path);
      var y :| y in items && CoversPath(y, path);
      CoveredAfterSort(items, y, path);
    }
  }

  lemma CoveredBySorted(items: seq<ResultItem>, path: string)
    requires Covered(SortedByKey(items), path)
    ensures Covered(items, path)
  {
    hide GetSortKey, SortedByKey, CoversPath, Covered, KeysIncrease;
    SortedByKeyFacts(items);
    CoveredMember(SortedByKey(items), path);
    CoveredMember(items, path);
  }

  /** A delete without exclude properties removes exactly what the candidates cover, whatever the second search would
      find: no path is dropped, and nothing but candidates is listed. */
  lemma DeleteWithoutExclusions(candidates: seq<ResultItem>, found: seq<ResultItem>, maxBufferSize: nat, path: string)
    requires SearchResults(candidates)
    ensures Covered(PathsToDelete(candidates, "", found, maxBufferSize), path) <==> Covered(candidates, path)
    ensures forall x :: x in PathsToDelete(candidates, "", found, maxBufferSize) ==> x in candidates
  {
    hide GetSortKey, SortedByKey, CoversPath, Covered, TopChain, WellFormed;
    ReductionCovers(candidates, path);
    forall x | x in PathsToDelete(candidates, "", found, maxBufferSize)
      ensures x in candidates
    {
      DeletedMembers(candidates, "", found, maxBufferSize, x);
    }
  }

  /** The final list is reduced, whatever the search results: in order, each key once, and nothing in it lies in a
      folder that is in it. */
  lemma PlannedIsReduced(candidates: seq<ResultItem>, excludeProps: string, found: seq<ResultItem>,
                         maxBufferSize: nat)
    ensures KeysIncrease(PathsToDelete(candidates, excludeProps, found, maxBufferSize))
    ensures Antichain(PathsToDelete(candidates, excludeProps, found, maxBufferSize))
  {
    hide GetSortKey, SortedByKey, TopChain, ToDelete, KeysIncrease, Antichain;
    var items := SortedByKey(ToDelete(candidates, excludeProps, found, maxBufferSize));
    SortedByKeyFacts(ToDelete(candidates, excludeProps, found, maxBufferSize));
    TopChainIncreases(items, "");
    TopChainIsAntichain(items, "");
  }

  lemma CoveringItem(items: seq<ResultItem>, y: ResultItem, path: string)
    requires SearchResults(items) && y in items && CoversPath(y, path)
    ensures WellFormed(y)
  {
    hide GetSortKey, HasPrefix, SegmentPath;
  }

  lemma CoveredAfterSort(items: seq<ResultItem>, y: ResultItem, path: string)
    requires SearchResults(items) && y in items && CoversPath(y, path)
    ensures Covered(SortedByKey(items), path)
  {
    hide GetSortKey, SortedByKey, Covered, CoversPath, WellFormed, RepoRoot, HasPrefix, KeysIncrease;
    SortedByKeyFacts(items);
    var x: ResultItem :| x in SortedByKey(items) && GetSortKey(x) == GetSortKey(y);
    CoveringItem(items, y, path);
    SameKeySameCover(x, y, path);
    CoveredMember(SortedByKey(items), path);
  }

  /** What the folders written cover, when the folders come in path order and none lies at a root. */
  lemma FolderWritten(candidates: seq<ResultItem>, found: seq<ResultItem>, maxBufferSize: nat, d: ResultItem)
    requires SearchResults(candidates) && SearchResults(found) && NoRootFolders(candidates)
    requires d in candidates && IsCandidate(d, "folder") && !HoldsKept(d, found)
    ensures exists x :: x in FoldersToDelete(candidates, found, maxBufferSize) && GetSortKey(x) == GetSortKey(d)
  {
    hide GetItemRelativePath, GetSortKey, HasPrefix, FolderStream, FilesToKeep, WellFormed, SweepNext, NoRootFolders,
         MergeHeads,
         HoldsKept, Protected, PathOrder, FolderList, FileList, NoInversion, Unprotected, SearchResults;
    var dirs, files := FolderStream(candidates, maxBufferSize), FilesToKeep(found, maxBufferSize);
    var x := FolderInStream(candidates, maxBufferSize, d);
    ProtectedIffHolds(d, found, maxBufferSize);
    SufficientOrder(candidates, maxBufferSize);
    FilesToKeepSorted(found, maxBufferSize);
    FolderStreamFolders(candidates, maxBufferSize);
    SweepExact(dirs, files);
    UnprotectedMember(dirs, files, x);
  }

  lemma FolderInStream(candidates: seq<ResultItem>, maxBufferSize: nat, d: ResultItem) returns (x: ResultItem)
    requires SearchResults(candidates) && NoRootFolders(candidates) && d in candidates && IsCandidate(d, "folder")
    ensures x in FolderStream(candidates, maxBufferSize)
    ensures GetItemRelativePath(x) == GetItemRelativePath(d) == GetSortKey(d) == GetSortKey(x)
  {
    hide GetItemRelativePath, GetSortKey, FolderStream, WellFormed, NoRootFolders, SearchResults, IsCandidate;
    FolderStreamMembers(candidates, maxBufferSize);
    NoRootKeys(candidates);
    x :| x in FolderStream(candidates, maxBufferSize) && GetItemRelativePath(x) == GetItemRelativePath(d);
  }

  lemma FolderStreamMembers(candidates: seq<ResultItem>, maxBufferSize: nat)
    ensures forall x :: x in FolderStream(candidates, maxBufferSize) ==> x in candidates && IsCandidate(x, "folder")
    ensures forall c :: c in candidates && IsCandidate(c, "folder") ==>
              exists x :: x in FolderStream(candidates, maxBufferSize)
                          && GetItemRelativePath(x) == GetItemRelativePath(c)
  {
    hide GetItemRelativePath, MergeHeads, Buffered, IsCandidate;
    StreamMembers(candidates, "folder", maxBufferSize);
  }

  /** A candidate that a delete should remove: a file, or a folder that holds no file to keep. */
  ghost predicate Wanted(x: ResultItem, candidates: seq<ResultItem>, found: seq<ResultItem>) {
    x in candidates && (IsFolder(x) ==> !HoldsKept(x, found))
  }

  lemma PlannedIsWanted(candidates: seq<ResultItem>, excludeProps: string, found: seq<ResultItem>, maxBufferSize: nat,
                        x: ResultItem)
    requires SearchResults(candidates) && SearchResults(found) && NoRootFolders(candidates) && excludeProps != ""
    requires x in ToDelete(candidates, excludeProps, found, maxBufferSize)
    ensures Wanted(x, candidates, found)
  {
    hide FoldersToDelete, HoldsKept, NoRootFolders, ToDelete, WellFormed, FolderStream;
    ToDeleteMembers(candidates, excludeProps, found, maxBufferSize, x);
    SufficientOrder(candidates, maxBufferSize);
    FoldersSafeIff(candidates, maxBufferSize);
    assert FoldersSafe(candidates, found, maxBufferSize);
  }

  lemma WantedIsPlanned(candidates: seq<ResultItem>, excludeProps: string, found: seq<ResultItem>, maxBufferSize: nat,
                        x: ResultItem, path: string)
    requires SearchResults(candidates) && SearchResults(found) && NoRootFolders(candidates) && excludeProps != ""
    requires Wanted(x, candidates, found) && CoversPath(x, path)
    ensures Covered(ToDelete(candidates, excludeProps, found, maxBufferSize), path)
  {
    hide FoldersToDelete, HoldsKept, NoRootFolders, WellFormed, FolderStream, GetSortKey, HasPrefix, Others, Covered;
    var planned := ToDelete(candidates, excludeProps, found, maxBufferSize);
    CandidateMember(candidates, "folder", x);
    CoveredMember(planned, path);
    if IsFolder(x) {
      FolderWritten(candidates, found, maxBufferSize, x);
      var y :| y in FoldersToDelete(candidates, found, maxBufferSize) && GetSortKey(y) == GetSortKey(x);
      WrittenAreFolders(candidates, found, maxBufferSize);
      assert y in planned && CoversPath(y, path);
    }
  }

  /** End-to-end exactness, for candidates without root folders: the final list covers exactly the paths of the
      candidate files and of the candidate folders, with everything beneath them, that hold no file to keep. */
  lemma DeleteIsExact(candidates: seq<ResultItem>, excludeProps: string, found: seq<ResultItem>, maxBufferSize: nat,
                      path: string)
    requires SearchResults(candidates) && SearchResults(found) && NoRootFolders(candidates) && excludeProps != ""
    ensures Covered(PathsToDelete(candidates, excludeProps, found, maxBufferSize), path)
            <==> exists x :: Wanted(x, candidates, found) && CoversPath(x, path)
  {
    hide FoldersToDelete, Wanted, NoRootFolders, WellFormed, CoversPath, Covered, ToDelete, SortedByKey, TopChain;
    var planned := ToDelete(candidates, excludeProps, found, maxBufferSize);
    forall x | x in planned
      ensures x in candidates
    {
      ToDeleteMembers(candidates, excludeProps, found, maxBufferSize, x);
    }
    ReductionCovers(planned, path);
    CoveredMember(planned, path);
    if Covered(planned, path) {
      var x :| x in planned && CoversPath(x, path);
      PlannedIsWanted(candidates, excludeProps, found, maxBufferSize, x);
    }
    if x :| Wanted(x, candidates, found) && CoversPath(x, path) {
      WantedIsPlanned(candidates, excludeProps, found, maxBufferSize, x, path);
    }
  }
}
