/** Why safety needs a condition on root folders: paths of root folders sort without the slash that their merge keys
    have, so two buffers can be merged into an order in which the sweep loses sight of a file to keep. */
module DeleteExample {
  import opened Wrappers
  import opened StringOrder
  import opened ReaderMerge
  import opened ResultItems
  import opened DeleteUtils
  import opened SearchUtil
  import opened DeleteSweep
  import opened Delete
  import opened DeleteLimits

  function RootFolder(name: string): ResultItem {
    ResultItem("r", ".", name, "folder", "", [])
  }

  const A := RootFolder("a")
  const AB := RootFolder("a-b")
  const AC := RootFolder("a-c")

  lemma RootFolderKeys(name: string)
    requires Segment(name)
    ensures WellFormed(RootFolder(name))
    ensures GetItemRelativePath(RootFolder(name)) == "r/" + name
    ensures GetSortKey(RootFolder(name)) == "r/" + name + "/"
  {
    hide GetItemRelativePath, GetSortKey;
    Keys(RootFolder(name));
    assert "r" + "/" + "" + name + "" == "r/" + name;
    assert "r" + "/" + "" + name + "/" == "r/" + name + "/";
  }

  lemma ExampleKeys()
    ensures GetItemRelativePath(A) == "r/a" && GetItemRelativePath(AB) == "r/a-b" && GetItemRelativePath(AC) == "r/a-c"
    ensures GetSortKey(A) == "r/a/" && GetSortKey(AB) == "r/a-b/" && GetSortKey(AC) == "r/a-c/"
    ensures WellFormed(A) && WellFormed(AB) && WellFormed(AC)
  {
    hide GetItemRelativePath, GetSortKey;
    RootFolderKeys("a");
    RootFolderKeys("a-b");
    RootFolderKeys("a-c");
    assert "r/" + "a" == "r/a" && "r/" + "a-b" == "r/a-b" && "r/" + "a-c" == "r/a-c";
    assert "r/a" + "/" == "r/a/" && "r/a-b" + "/" == "r/a-b/" && "r/a-c" + "/" == "r/a-c/";
  }

  lemma ExampleOrder()
    ensures Less("r/a", "r/a-b") && !Less("r/a-b", "r/a")
    ensures Less("r/a-b/", "r/a/") && Less("r/a-c/", "r/a/") && !Less("r/a/", "r/a-c/") && !Less("r/a/", "r/a-b/")
    ensures Less("r/a-b/", "r/a-c")
  {
  }

  lemma TwoSaved(a: ResultItem, b: ResultItem)
    requires Less(GetItemRelativePath(a), GetItemRelativePath(b))
    ensures SavedChunk([a, b], GetItemRelativePath) == [a, b]
  {
    hide GetItemRelativePath;
    var p, q := GetItemRelativePath(a), GetItemRelativePath(b);
    LessTotal(p, q);
    var keys := KeysOf([a, b], GetItemRelativePath);
    assert keys == [p, q] && keys[1..] == [q] && [q][1..] == [];
    assert SortKeys([q], true) == [q];
    assert SortKeys(keys, true) == [p, q];
    assert [a, b][..1] == [a] && [a][..0] == [];
    assert ByKey([a], GetItemRelativePath) == map[p := a];
    assert ByKey([a, b], GetItemRelativePath) == map[p := a][q := b];
  }

  lemma ExampleBuffers()
    ensures Chunks(Buffer(Candidates([A, AB, AC], "folder"), 2)) == [[A, AB], [AC]]
  {
    var all := [A, AB, AC];
    assert all[..2] == [A, AB] && [A, AB][..1] == [A] && [A][..0] == [];
    assert Candidates([A], "folder") == [A];
    assert Candidates([A, AB], "folder") == [A, AB];
    assert Candidates(all, "folder") == all;
    assert Buffer([A], 2) == Buffers([], [A]);
    assert [A] + [AB] == [A, AB];
    assert Buffer([A, AB], 2) == Buffers([[A, AB]], []);
    assert Buffer(all, 2) == Buffers([[A, AB]], [AC]);
  }

  lemma MergeTwo(x: seq<ResultItem>, y: seq<ResultItem>, key: ResultItem -> string)
    ensures MergeHeads([x, y], key, true) ==
            if y != [] && (x == [] || Less(key(y[0]), key(x[0]))) then [y[0]] + MergeHeads([x, y[1..]], key, true)
            else if x != [] then [x[0]] + MergeHeads([x[1..], y], key, true)
            else []
  {
    hide Less;
    var p := [x, y];
    assert p[..1] == [x] && [x][..0] == [];
    assert p[0] == x && p[1] == y && |p| == 2;
    assert MinHead([], key, true) == None;
    assert MinHead([x], key, true) == if x == [] then None else Some(0);
    if y != [] {
      assert p[1 := y[1..]] == [x, y[1..]];
    }
    if x != [] {
      assert p[0 := x[1..]] == [x[1..], y];
    }
  }

  lemma {:induction false} MergeRest(x: seq<ResultItem>, key: ResultItem -> string)
    ensures MergeHeads([x, []], key, true) == x
  {
    hide Less, MergeHeads;
    MergeTwo(x, [], key);
    if x != [] {
      MergeRest(x[1..], key);
    }
  }

  lemma ExampleMerge()
    ensures MergeHeads([[A, AB], [AC]], GetSortKey, true) == [AC, A, AB]
  {
    hide GetSortKey, Less, MergeHeads;
    ExampleKeys();
    ExampleOrder();
    MergeTwo([A, AB], [AC], GetSortKey);
    MergeRest([A, AB], GetSortKey);
    assert [AC][1..] == [];
  }

  /** Three root folders and buffers of two: some file to keep exists whose folder is deleted. */
  lemma TwoBuffersUnsafe()
    ensures SearchResults([A, AB, AC]) && !NoInversion(FolderStream([A, AB, AC], 2))
    ensures exists found :: SearchResults(found) && !FoldersSafe([A, AB, AC], found, 2)
  {
    hide GetItemRelativePath, GetSortKey, Less, MergeHeads, SavedChunk, Buffer, WellFormed, Candidates, FoldersSafe;
    ExampleKeys();
    ExampleOrder();
    ExampleBuffers();
    TwoSaved(A, AB);
    SavedOne(AC);
    assert Buffered([A, AB, AC], "folder", 2) == [[A, AB], [AC]];
    ExampleMerge();
    var stream := FolderStream([A, AB, AC], 2);
    assert stream[0] == AC && stream[2] == AB;
    FoldersSafeIff([A, AB, AC], 2);
  }

  /** One root folder and one buffer: the folder r/a, which holds no file to keep, is not deleted because of r/ab/x. */
  lemma NeighbourKeepsA()
    ensures var x := ResultItem("r", "ab", "x", "file", "", []);
            SearchResults([A]) && SearchResults([x]) && !HoldsKept(A, [x])
            && !Covered(PathsToDelete([A], "k=v", [x], 0), "r/a/")
  {
    hide WellFormed, HoldsKept, PathsToDelete, Covered, GetSortKey, GetItemRelativePath, FolderStream, NoInversion,
         PathOrder;
    ExampleKeys();
    assert "a" + "b" == "ab";
    assert NeighbourFile(A) == ResultItem("r", "ab", "x", "file", "", []);
    SufficientOrder([A], 0);
    RootFolderNotExact([A], "k=v", 0, A);
  }
}
