/** Which folders may be deleted (artifactory/services/utils/deleteutils.go): candidates are buffered in path order,
    merged, and swept against the sorted files that must stay. */
module DeleteUtils {
  import opened Sequences
  import opened Wrappers
  import opened Text
  import opened StringOrder
  import opened SortBuffers
  import opened ReaderMerge
  import opened ResultItems

  // ----- FilterCandidateToBeDeleted -----

  predicate IsCandidate(item: ResultItem, candidateType: string) {
    item.itemType == candidateType && !(candidateType == "folder" && item.name == ".")
  }

  function Candidates(items: seq<ResultItem>, candidateType: string): seq<ResultItem> {
    if items == [] then []
    else
      var last := items[|items| - 1];
      Candidates(items[..|items| - 1], candidateType) + if IsCandidate(last, candidateType) then [last] else []
  }

  function Others(items: seq<ResultItem>, candidateType: string): seq<ResultItem> {
    if items == [] then []
    else
      var last := items[|items| - 1];
      Others(items[..|items| - 1], candidateType) + if last.itemType != candidateType then [last] else []
  }

  /** The full buffers so far, and the one being filled. */
  datatype Buffers = Buffers(full: seq<seq<ResultItem>>, open: seq<ResultItem>)

  function Buffer(items: seq<ResultItem>, maxBufferSize: nat): Buffers {
    if items == [] then Buffers([], [])
    else
      var b := Buffer(items[..|items| - 1], maxBufferSize);
      var open := b.open + [items[|items| - 1]];
      if |open| == maxBufferSize then Buffers(b.full + [open], []) else Buffers(b.full, open)
  }

  function Chunks(b: Buffers): seq<seq<ResultItem>> {
    if b.open == [] then b.full else b.full + [b.open]
  }

  /** The buffer's map: the last item of each key. */
  function ByKey<R>(chunk: seq<R>, key: R -> string): (m: map<string, R>)
    ensures forall i :: 0 <= i < |chunk| ==> key(chunk[i]) in m
    ensures forall k :: k in m ==> m[k] in chunk && key(m[k]) == k
  {
    if chunk == [] then map[]
    else
      var last := chunk[|chunk| - 1];
      ByKey(chunk[..|chunk| - 1], key)[key(last) := last]
  }

  function KeysOf<R>(chunk: seq<R>, key: R -> string): (keys: seq<string>)
    ensures |keys| == |chunk|
    ensures forall i :: 0 <= i < |chunk| ==> keys[i] == key(chunk[i])
  {
    seq(|chunk|, i requires 0 <= i < |chunk| => key(chunk[i]))
  }

  function SavedChunk<R>(chunk: seq<R>, key: R -> string): seq<R> {
    Saved(ByKey(chunk, key), KeysOf(chunk, key), true)
  }

  function SavedChunks<R>(chunks: seq<seq<R>>, key: R -> string): seq<seq<R>> {
    seq(|chunks|, i requires 0 <= i < |chunks| => SavedChunk(chunks[i], key))
  }

  lemma BufferOneMore<R>(open: seq<R>, c: R, key: R -> string)
    ensures ByKey(open + [c], key) == ByKey(open, key)[key(c) := c]
    ensures KeysOf(open + [c], key) == KeysOf(open, key) + [key(c)]
  {
    assert (open + [c])[..|open|] == open;
  }

  method FilterCandidateToBeDeleted(deleteCandidates: seq<ResultItem>, candidateType: string, maxBufferSize: nat)
    returns (toBeDeleted: seq<seq<ResultItem>>, resultWriter: seq<ResultItem>)
    ensures toBeDeleted
            == SavedChunks(Chunks(Buffer(Candidates(deleteCandidates, candidateType), maxBufferSize)),
                           GetItemRelativePath)
    ensures resultWriter == Others(deleteCandidates, candidateType)
  {
    hide Saved, GetItemRelativePath, ByKey, KeysOf, Buffer, Candidates, Others;
    var paths: map<string, ResultItem> := map[];
    var pathsKeys: seq<string> := [];
    toBeDeleted, resultWriter := [], [];
    ghost var b := Buffers([], []);
    EmptyBuffer(deleteCandidates, candidateType, maxBufferSize);
    var n := 0;
    while n < |deleteCandidates|
      invariant 0 <= n <= |deleteCandidates|
      invariant b == Buffer(Candidates(deleteCandidates[..n], candidateType), maxBufferSize)
      invariant paths == ByKey(b.open, GetItemRelativePath) && pathsKeys == KeysOf(b.open, GetItemRelativePath)
      invariant toBeDeleted == SavedChunks(b.full, GetItemRelativePath)
      invariant resultWriter == Others(deleteCandidates[..n], candidateType)
    {
      var candidate := deleteCandidates[n];
      ReadCandidate(deleteCandidates, n, candidateType);
      n := n + 1;
      if candidate.itemType == candidateType {
        if candidateType == "folder" && candidate.name == "." {
          continue;
        }
        BufferOneMore(b.open, candidate, GetItemRelativePath);
        BufferNext(Candidates(deleteCandidates[..n - 1], candidateType), candidate, maxBufferSize);
        pathsKeys := pathsKeys + [GetItemRelativePath(candidate)];
        paths := paths[GetItemRelativePath(candidate) := candidate];
        b := Buffers(b.full, b.open + [candidate]);
        if |pathsKeys| == maxBufferSize {
          var sortedCandidateDirsFile := SortAndSaveBufferToFile(paths, pathsKeys, true);
          toBeDeleted := toBeDeleted + [sortedCandidateDirsFile];
          paths, pathsKeys := map[], [];
          b := Buffers(b.full + [b.open], []);
          EmptyBuffer(deleteCandidates, candidateType, maxBufferSize);
        }
      } else {
        resultWriter := resultWriter + [candidate];
      }
    }
    assert deleteCandidates[..n] == deleteCandidates;
    if |pathsKeys| > 0 {
      var sortedFile := SortAndSaveBufferToFile(paths, pathsKeys, true);
      toBeDeleted := toBeDeleted + [sortedFile];
    }
  }

  lemma EmptyBuffer(items: seq<ResultItem>, candidateType: string, maxBufferSize: nat)
    ensures Buffer(Candidates(items[..0], candidateType), maxBufferSize) == Buffers([], [])
    ensures Others(items[..0], candidateType) == []
    ensures ByKey([], GetItemRelativePath) == map[] && KeysOf([], GetItemRelativePath) == []
  {
  }

  lemma ReadCandidate(items: seq<ResultItem>, n: nat, candidateType: string)
    requires n < |items|
    ensures Candidates(items[..n + 1], candidateType)
            == if IsCandidate(items[n], candidateType) then Candidates(items[..n], candidateType) + [items[n]]
               else Candidates(items[..n], candidateType)
    ensures Others(items[..n + 1], candidateType)
            == if items[n].itemType != candidateType then Others(items[..n], candidateType) + [items[n]]
               else Others(items[..n], candidateType)
  {
    assert items[..n + 1][..n] == items[..n];
  }

  lemma BufferNext(cs: seq<ResultItem>, c: ResultItem, maxBufferSize: nat)
    ensures var b := Buffer(cs, maxBufferSize);
            var open := b.open + [c];
            Buffer(cs + [c], maxBufferSize)
            == if |open| == maxBufferSize then Buffers(b.full + [open], []) else Buffers(b.full, open)
  {
    assert (cs + [c])[..|cs|] == cs;
  }

  lemma {:induction false} CandidateMember(items: seq<ResultItem>, candidateType: string, x: ResultItem)
    ensures x in Candidates(items, candidateType) <==> x in items && IsCandidate(x, candidateType)
    ensures x in Others(items, candidateType) <==> x in items && x.itemType != candidateType
  {
    if items != [] {
      var n := |items| - 1;
      CandidateMember(items[..n], candidateType, x);
      assert items == items[..n] + [items[n]];
    }
  }

  /** Buffering loses nothing and keeps the order. */
  lemma {:induction false} ChunksFlat(cs: seq<ResultItem>, maxBufferSize: nat)
    ensures Flat(Buffer(cs, maxBufferSize).full) + Buffer(cs, maxBufferSize).open == cs
    ensures Flat(Chunks(Buffer(cs, maxBufferSize))) == cs
  {
    hide Flat;
    var b := Buffer(cs, maxBufferSize);
    if cs == [] {
      FlatEmpty<ResultItem>([]);
    } else {
      var init, last := cs[..|cs| - 1], cs[|cs| - 1];
      ChunksFlat(init, maxBufferSize);
      var p := Buffer(init, maxBufferSize);
      BufferNext(init, last, maxBufferSize);
      FlatAppend(p.full, p.open + [last]);
      assert cs == init + [last];
      hide Buffer;
      assert Flat(p.full) + (p.open + [last]) == (Flat(p.full) + p.open) + [last];
    }
    FlatAppend(b.full, b.open);
  }

  lemma {:induction false} BuffersAreFull(cs: seq<ResultItem>, maxBufferSize: nat)
    requires maxBufferSize > 0
    ensures AllFull(Buffer(cs, maxBufferSize).full, maxBufferSize)
    ensures |Buffer(cs, maxBufferSize).open| < maxBufferSize
  {
    if cs != [] {
      BuffersAreFull(cs[..|cs| - 1], maxBufferSize);
    }
  }

  /** For a positive maximal size all buffers but the last are full, and the last is not empty and no larger. */
  lemma ChunksFit(cs: seq<ResultItem>, maxBufferSize: nat)
    requires maxBufferSize > 0
    ensures BuffersFit(Chunks(Buffer(cs, maxBufferSize)), maxBufferSize)
  {
    hide Buffer;
    BuffersAreFull(cs, maxBufferSize);
    var b := Buffer(cs, maxBufferSize);
    if b.open != [] {
      assert (b.full + [b.open])[..|b.full|] == b.full;
    }
  }

  /** Up to the buffer size there is a single buffer. */
  lemma {:induction false} OneBuffer(cs: seq<ResultItem>, maxBufferSize: nat)
    requires |cs| <= maxBufferSize || maxBufferSize == 0
    ensures Chunks(Buffer(cs, maxBufferSize)) == if cs == [] then [] else [cs]
    ensures |cs| < maxBufferSize || maxBufferSize == 0 ==> Buffer(cs, maxBufferSize) == Buffers([], cs)
  {
    hide Buffer;
    if cs == [] {
      NothingBuffered(maxBufferSize);
    } else {
      var n := |cs| - 1;
      OneBuffer(cs[..n], maxBufferSize);
      assert cs == cs[..n] + [cs[n]];
      BufferNext(cs[..n], cs[n], maxBufferSize);
      assert [] + [cs] == [cs];
    }
  }

  lemma NothingBuffered(maxBufferSize: nat)
    ensures Buffer([], maxBufferSize) == Buffers([], [])
  {
  }

  /** A saved buffer is in key order, holds only the buffer's items, and one item for each of its keys. */
  lemma SavedChunkFacts<R>(chunk: seq<R>, key: R -> string)
    ensures SortedBy(SavedChunk(chunk, key), key, true)
    ensures forall x :: x in SavedChunk(chunk, key) ==> x in chunk
    ensures forall c :: c in chunk ==> exists x :: x in SavedChunk(chunk, key) && key(x) == key(c)
  {
    hide Before, SortKeys;
    var m, keys := ByKey(chunk, key), KeysOf(chunk, key);
    var sorted, saved := SortKeys(keys, true), SavedChunk(chunk, key);
    SortKeysSorts(keys, true);
    SameMembers(keys, sorted);
    forall i | 0 <= i < |saved|
      ensures sorted[i] in m && saved[i] == m[sorted[i]] && saved[i] in chunk && key(saved[i]) == sorted[i]
    {
      assert sorted[i] in keys;
    }
    forall c | c in chunk
      ensures exists x :: x in saved && key(x) == key(c)
    {
      var j :| 0 <= j < |chunk| && chunk[j] == c;
      assert keys[j] in sorted;
      var i :| 0 <= i < |sorted| && sorted[i] == keys[j];
      assert saved[i] in saved;
    }
  }

  /** All saved buffers: their members come from the list, and every key of the list is there. */
  lemma SavedMembers<R>(chunks: seq<seq<R>>, key: R -> string)
    ensures var saved := SavedChunks(chunks, key);
            && (forall i :: 0 <= i < |saved| ==> SortedBy(saved[i], key, true))
            && (forall x :: x in Flat(saved) ==> x in Flat(chunks))
            && (forall c :: c in Flat(chunks) ==> exists x :: x in Flat(saved) && key(x) == key(c))
  {
    hide SavedChunk, SortedBy, Flat;
    var saved := SavedChunks(chunks, key);
    forall i | 0 <= i < |saved|
      ensures SortedBy(saved[i], key, true)
    {
      SavedChunkFacts(chunks[i], key);
    }
    forall x | x in Flat(saved)
      ensures x in Flat(chunks)
    {
      SavedWithin(chunks, key, x);
    }
    forall c | c in Flat(chunks)
      ensures exists x :: x in Flat(saved) && key(x) == key(c)
    {
      var x := SavedLike(chunks, key, c);
    }
  }

  /** Of the items of a buffer with one path the last one is saved, once for each of them. */
  lemma SavedIsLast<R>(chunk: seq<R>, key: R -> string, i: nat)
    requires i < |SavedChunk(chunk, key)|
    ensures |SavedChunk(chunk, key)| == |chunk|
    ensures exists j: nat :: LastOfKey(chunk, key, j) && SavedChunk(chunk, key)[i] == chunk[j]
  {
    hide SortKeys;
    var keys := KeysOf(chunk, key);
    var sorted := SortKeys(keys, true);
    SortKeysSorts(keys, true);
    SameMembers(keys, sorted);
    var k := sorted[i];
    assert k in keys;
    var j := ByKeyIsLast(chunk, key, k);
  }

  predicate LastOfKey<R>(chunk: seq<R>, key: R -> string, j: nat) {
    j < |chunk| && forall l :: j < l < |chunk| ==> key(chunk[l]) != key(chunk[j])
  }

  lemma {:induction false} ByKeyIsLast<R>(chunk: seq<R>, key: R -> string, k: string) returns (j: nat)
    requires k in ByKey(chunk, key)
    ensures LastOfKey(chunk, key, j) && key(chunk[j]) == k && ByKey(chunk, key)[k] == chunk[j]
  {
    var n := |chunk| - 1;
    if key(chunk[n]) == k {
      j := n;
    } else {
      j := ByKeyIsLast(chunk[..n], key, k);
    }
  }

  lemma SavedWithin<R>(chunks: seq<seq<R>>, key: R -> string, x: R)
    requires x in Flat(SavedChunks(chunks, key))
    ensures x in Flat(chunks)
  {
    hide SavedChunk, SortedBy, Flat;
    var saved := SavedChunks(chunks, key);
    FlatMember(saved, x);
    var i :| 0 <= i < |saved| && x in saved[i];
    SavedChunkFacts(chunks[i], key);
    FlatMember(chunks, x);
  }

  lemma SavedLike<R>(chunks: seq<seq<R>>, key: R -> string, c: R) returns (x: R)
    requires c in Flat(chunks)
    ensures x in Flat(SavedChunks(chunks, key)) && key(x) == key(c)
  {
    hide SavedChunk, Flat;
    FlatMember(chunks, c);
    var i :| 0 <= i < |chunks| && c in chunks[i];
    x := SavedOf(chunks[i], key, c);
    assert SavedChunks(chunks, key)[i] == SavedChunk(chunks[i], key);
    FlatMember(SavedChunks(chunks, key), x);
  }

  lemma SavedOf<R>(chunk: seq<R>, key: R -> string, c: R) returns (x: R)
    requires c in chunk
    ensures x in SavedChunk(chunk, key) && key(x) == key(c)
  {
    hide SavedChunk, SortedBy;
    SavedChunkFacts(chunk, key);
    x :| x in SavedChunk(chunk, key) && key(x) == key(c);
  }

  // ----- WriteCandidateDirsToBeDeleted -----

  /** The sweep's two cursors: `dir` is the current candidate and `dirPath` the path it is compared by, `dirs` and
      `files` are still to be read. A candidate named "." is kept as the current one but not compared by its own
      path. */
  function Sweep(dir: ResultItem, dirPath: string, dirs: seq<ResultItem>, files: seq<ResultItem>): seq<ResultItem>
    decreases |dirs|, |files|
  {
    if files == [] then [dir] + dirs
    else
      var location := GetItemRelativeLocation(files[0]);
      if HasPrefix(location, dirPath) then SweepNext(dirPath, dirs, files)
      else if Less(dirPath, location) then [dir] + SweepNext(dirPath, dirs, files)
      else Sweep(dir, dirPath, dirs, files[1..])
  }

  function SweepNext(previousPath: string, dirs: seq<ResultItem>, files: seq<ResultItem>): seq<ResultItem>
    decreases |dirs|, -1
  {
    if dirs == [] then []
    else Sweep(dirs[0], if dirs[0].name == "." then previousPath else GetItemRelativePath(dirs[0]), dirs[1..], files)
  }

  /** A folder named "." at the head is not compared by its own path: it is dropped as long as a file is left, and
      written otherwise. */
  lemma DotFolder(dirs: seq<ResultItem>, files: seq<ResultItem>)
    requires dirs != [] && dirs[0].name == "."
    ensures SweepNext("", dirs, files) == if files == [] then dirs else SweepNext("", dirs[1..], files)
  {
    hide GetItemRelativePath, GetItemRelativeLocation, Less;
    assert dirs == [dirs[0]] + dirs[1..];
  }

  /** What the loop still has to write, with or without a current candidate. */
  function Remaining(dir: Option<ResultItem>, path: string, dirs: seq<ResultItem>,
                     files: seq<ResultItem>): seq<ResultItem>
  {
    if dir.Some? then Sweep(dir.value, path, dirs, files) else SweepNext(path, dirs, files)
  }

  lemma StartSweep(dirs: seq<ResultItem>, files: seq<ResultItem>)
    ensures Remaining(None, "", dirs, files) == SweepNext("", dirs, files)
  {
  }

  lemma TakeDir(path: string, dirs: seq<ResultItem>, files: seq<ResultItem>)
    ensures dirs == [] ==> Remaining(None, path, dirs, files) == []
    ensures dirs != [] ==>
              var p := if dirs[0].name == "." then path else GetItemRelativePath(dirs[0]);
              Remaining(None, path, dirs, files) == Remaining(Some(dirs[0]), p, dirs[1..], files)
  {
    hide GetItemRelativePath;
  }

  lemma CompareDir(dir: ResultItem, path: string, dirs: seq<ResultItem>, files: seq<ResultItem>)
    ensures files == [] ==> Remaining(Some(dir), path, dirs, files) == [dir] + dirs
    ensures files != [] ==>
              var location := GetItemRelativeLocation(files[0]);
              Remaining(Some(dir), path, dirs, files)
              == if HasPrefix(location, path) then Remaining(None, path, dirs, files)
                 else if Less(path, location) then [dir] + Remaining(None, path, dirs, files)
                 else Remaining(Some(dir), path, dirs, files[1..])
  {
    hide GetItemRelativePath, GetItemRelativeLocation, Less, HasPrefix;
  }

  method WriteCandidateDirsToBeDeleted(candidateDirsReaders: seq<seq<ResultItem>>, filesNotToBeDeleted: seq<ResultItem>)
    returns (resultWriter: seq<ResultItem>)
    ensures resultWriter == SweepNext("", MergeHeads(candidateDirsReaders, GetSortKey, true), filesNotToBeDeleted)
  {
    hide GetItemRelativePath, GetItemRelativeLocation, Less, HasPrefix, Sweep, SweepNext, GetSortKey, MergeHeads,
         Remaining;
    StartSweep(MergeHeads(candidateDirsReaders, GetSortKey, true), filesNotToBeDeleted);
    var dirsReader := MergeSortedReaders(candidateDirsReaders, GetSortKey, true);
    var filesReader := filesNotToBeDeleted;
    ghost var wanted := Remaining(None, "", dirsReader, filesReader);
    resultWriter := [];
    var candidateDirToBeDeletedPath := "";
    var itemNotToBeDeletedLocation := "";
    var candidateDirToBeDeleted: Option<ResultItem> := None;
    var artifactNotToBeDeleted: Option<ResultItem> := None;
    while true
      invariant artifactNotToBeDeleted.Some? ==>
                itemNotToBeDeletedLocation == GetItemRelativeLocation(artifactNotToBeDeleted.value)
      invariant wanted == resultWriter + Remaining(candidateDirToBeDeleted, candidateDirToBeDeletedPath, dirsReader,
                                                   WithCurrent(artifactNotToBeDeleted, filesReader))
      decreases |dirsReader|, |filesReader|, if candidateDirToBeDeleted.Some? then 1 else 0,
                if artifactNotToBeDeleted.Some? then 1 else 0
    {
      if candidateDirToBeDeleted.None? {
        TakeDir(candidateDirToBeDeletedPath, dirsReader, WithCurrent(artifactNotToBeDeleted, filesReader));
        if dirsReader == [] {
          break;
        }
        candidateDirToBeDeleted, dirsReader := Some(dirsReader[0]), dirsReader[1..];
        if candidateDirToBeDeleted.value.name == "." {
          continue;
        }
        candidateDirToBeDeletedPath := GetItemRelativePath(candidateDirToBeDeleted.value);
      }
      ghost var files := WithCurrent(artifactNotToBeDeleted, filesReader);
      CompareDir(candidateDirToBeDeleted.value, candidateDirToBeDeletedPath, dirsReader, files);
      if artifactNotToBeDeleted.None? {
        if filesReader == [] {
          WriteThen(resultWriter, candidateDirToBeDeleted.value, dirsReader);
          resultWriter := resultWriter + [candidateDirToBeDeleted.value];
          resultWriter := resultWriter + dirsReader;
          break;
        }
        assert files == [filesReader[0]] + filesReader[1..];
        artifactNotToBeDeleted, filesReader := Some(filesReader[0]), filesReader[1..];
        itemNotToBeDeletedLocation := GetItemRelativeLocation(artifactNotToBeDeleted.value);
      }
      if HasPrefix(itemNotToBeDeletedLocation, candidateDirToBeDeletedPath) {
        candidateDirToBeDeleted := None;
        continue;
      }
      if Less(candidateDirToBeDeletedPath, itemNotToBeDeletedLocation) {
        WriteThen(resultWriter, candidateDirToBeDeleted.value,
                  Remaining(None, candidateDirToBeDeletedPath, dirsReader, files));
        resultWriter := resultWriter + [candidateDirToBeDeleted.value];
        candidateDirToBeDeleted := None;
        continue;
      }
      artifactNotToBeDeleted := None;
    }
  }

  function WithCurrent(current: Option<ResultItem>, rest: seq<ResultItem>): (all: seq<ResultItem>)
    ensures current.Some? ==> all != [] && all[0] == current.value && all[1..] == rest
  {
    if current.Some? then [current.value] + rest else rest
  }
}
