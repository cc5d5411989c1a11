/** Reducing sorted results to the top-most or bottom-most items (artifactory/services/utils/searchutil.go). */
module SearchUtil {
  import opened Sequences
  import opened Wrappers
  import opened Text
  import opened StringOrder
  import opened ResultItems

  // ----- Top chain -----

  function TopChain(items: seq<ResultItem>, prevFolder: string): seq<ResultItem> {
    if items == [] then []
    else
      var item, key := items[0], GetSortKey(items[0]);
      if item.name == "." || (prevFolder != "" && HasPrefix(key, prevFolder)) then TopChain(items[1..], prevFolder)
      else [item] + TopChain(items[1..], if IsFolder(item) then key else prevFolder)
  }

  lemma TopStep(items: seq<ResultItem>, prevFolder: string)
    requires items != []
    ensures var item := items[0];
            var rPath := GetItemRelativePath(item);
            var key := if IsFolder(item) && !HasSuffix(rPath, "/") then rPath + "/" else rPath;
            TopChain(items, prevFolder)
            == if item.name != "." && (prevFolder == "" || !HasPrefix(key, prevFolder)) then
                 [item] + TopChain(items[1..], if IsFolder(item) then key else prevFolder)
               else TopChain(items[1..], prevFolder)
  {
    hide GetItemRelativePath, HasPrefix;
  }

  method FilterTopChainResults(items: seq<ResultItem>) returns (writer: seq<ResultItem>)
    ensures writer == TopChain(items, "")
  {
    hide GetItemRelativePath, TopChain, HasPrefix, HasSuffix;
    writer := [];
    var reader := items;
    var prevFolder := "";
    while reader != []
      invariant TopChain(items, "") == writer + TopChain(reader, prevFolder)
      decreases |reader|
    {
      var item := reader[0];
      TopStep(reader, prevFolder);
      reader := reader[1..];
      if item.name == "." {
        continue;
      }
      var rPath := GetItemRelativePath(item);
      if IsFolder(item) && !HasSuffix(rPath, "/") {
        rPath := rPath + "/";
      }
      if prevFolder == "" || !HasPrefix(rPath, prevFolder) {
        WriteThen(writer, item, TopChain(reader, if IsFolder(item) then rPath else prevFolder));
        writer := writer + [item];
        if IsFolder(item) {
          prevFolder := rPath;
        }
      }
    }
    assert TopChain([], prevFolder) == [] by {
      NoItems(prevFolder);
    }
  }

  lemma NoItems(prev: string)
    ensures TopChain([], prev) == [] && BottomChain([], prev) == []
  {
  }

  /** An item covers its own path, and a folder everything beneath it. Items named "." cover nothing. */
  predicate CoversPath(item: ResultItem, path: string) {
    item.name != "." && if IsFolder(item) then HasPrefix(path, GetSortKey(item)) else path == GetSortKey(item)
  }

  predicate Covered(items: seq<ResultItem>, path: string) {
    exists i :: 0 <= i < |items| && CoversPath(items[i], path)
  }

  predicate Under(folder: string, path: string) {
    folder != "" && HasPrefix(path, folder)
  }

  lemma CoveredCons(items: seq<ResultItem>, path: string)
    requires items != []
    ensures Covered(items, path) <==> CoversPath(items[0], path) || Covered(items[1..], path)
  {
    hide CoversPath;
    if Covered(items, path) && !CoversPath(items[0], path) {
      var i :| 0 <= i < |items| && CoversPath(items[i], path);
      assert items[1..][i - 1] == items[i];
    }
    if Covered(items[1..], path) {
      var i :| 0 <= i < |items[1..]| && CoversPath(items[1..][i], path);
      assert items[i + 1] == items[1..][i];
    }
  }

  lemma {:induction false} TopChainKeepsCover(items: seq<ResultItem>, prevFolder: string, path: string)
    ensures Covered(TopChain(items, prevFolder), path) || Under(prevFolder, path) <==>
            Covered(items, path) || Under(prevFolder, path)
  {
    hide GetSortKey, HasPrefix, Covered;
    if items != [] {
      var item, key := items[0], GetSortKey(items[0]);
      CoveredCons(items, path);
      if item.name == "." || (prevFolder != "" && HasPrefix(key, prevFolder)) {
        TopChainKeepsCover(items[1..], prevFolder, path);
        if prevFolder != "" && HasPrefix(key, prevFolder) && HasPrefix(path, key) {
          PrefixTransitive(prevFolder, key, path);
        }
      } else {
        var next := if IsFolder(item) then key else prevFolder;
        TopChainKeepsCover(items[1..], next, path);
        var kept := TopChain(items, prevFolder);
        assert kept[0] == item && kept[1..] == TopChain(items[1..], next);
        CoveredCons(kept, path);
        KeyNotEmpty(item);
      }
    }
  }

  lemma KeyNotEmpty(item: ResultItem)
    ensures IsFolder(item) ==> GetSortKey(item) != ""
    ensures SlashedPath(item) != ""
  {
    hide GetItemRelativePath;
  }

  /** Meaning is preserved: the kept items cover exactly the paths that all items cover. */
  lemma TopChainCovers(items: seq<ResultItem>, path: string)
    ensures Covered(TopChain(items, ""), path) <==> Covered(items, path)
  {
    TopChainKeepsCover(items, "", path);
  }

  ghost predicate KeysIncrease(items: seq<ResultItem>) {
    forall i, j :: 0 <= i < j < |items| ==> Less(GetSortKey(items[i]), GetSortKey(items[j]))
  }

  /** No item lies in, or is, another item that is a folder. */
  ghost predicate Antichain(items: seq<ResultItem>) {
    forall i, j :: 0 <= i < |items| && 0 <= j < |items| && i != j && IsFolder(items[i]) ==>
      !HasPrefix(GetSortKey(items[j]), GetSortKey(items[i]))
  }

  lemma {:induction false} TopChainMember(items: seq<ResultItem>, prevFolder: string, x: ResultItem)
    requires x in TopChain(items, prevFolder)
    ensures x in items && x.name != "."
  {
    hide GetSortKey, HasPrefix;
    var item, key := items[0], GetSortKey(items[0]);
    if item.name == "." || (prevFolder != "" && HasPrefix(key, prevFolder)) {
      TopChainMember(items[1..], prevFolder, x);
    } else if x != item {
      TopChainMember(items[1..], if IsFolder(item) then key else prevFolder, x);
    }
  }

  lemma {:induction false} TopChainIsAntichain(items: seq<ResultItem>, prevFolder: string)
    requires KeysIncrease(items)
    requires forall i :: 0 <= i < |items| ==> AtMost(prevFolder, GetSortKey(items[i]))
    ensures Antichain(TopChain(items, prevFolder))
    ensures prevFolder != "" ==> forall x :: x in TopChain(items, prevFolder) ==> !HasPrefix(GetSortKey(x), prevFolder)
  {
    hide GetSortKey, HasPrefix, Less;
    if items != [] {
      var item, key := items[0], GetSortKey(items[0]);
      if item.name == "." || (prevFolder != "" && HasPrefix(key, prevFolder)) {
        TopChainIsAntichain(items[1..], prevFolder);
      } else {
        var next := if IsFolder(item) then key else prevFolder;
        var rest := TopChain(items[1..], next);
        TailAfterHead(items);
        KeyNotEmpty(item);
        TopChainIsAntichain(items[1..], next);
        KeptTail(items, prevFolder, next);
        KeptAntichain(item, rest);
        assert TopChain(items, prevFolder) == [item] + rest;
      }
    }
  }

  /** What is kept stays in order, each key once. */
  lemma {:induction false} TopChainIncreases(items: seq<ResultItem>, prevFolder: string)
    requires KeysIncrease(items)
    ensures KeysIncrease(TopChain(items, prevFolder))
  {
    hide GetSortKey, HasPrefix, Less;
    if items != [] {
      var item, key := items[0], GetSortKey(items[0]);
      TopChainIncreases(items[1..], prevFolder);
      if item.name != "." && !(prevFolder != "" && HasPrefix(key, prevFolder)) {
        var rest := TopChain(items[1..], if IsFolder(item) then key else prevFolder);
        TopChainIncreases(items[1..], if IsFolder(item) then key else prevFolder);
        assert TopChain(items, prevFolder) == [item] + rest;
        forall j | 0 <= j < |rest|
          ensures Less(key, GetSortKey(rest[j]))
        {
          TopChainMember(items[1..], if IsFolder(item) then key else prevFolder, rest[j]);
          var k :| 0 <= k < |items[1..]| && items[1..][k] == rest[j];
          assert items[k + 1] == rest[j];
        }
      }
    }
  }

  lemma TailAfterHead(items: seq<ResultItem>)
    requires items != [] && KeysIncrease(items)
    ensures KeysIncrease(items[1..])
    ensures forall x :: x in items[1..] ==>
              Less(GetSortKey(items[0]), GetSortKey(x)) && AtMost(GetSortKey(items[0]), GetSortKey(x))
  {
    hide GetSortKey, Less;
    forall x | x in items[1..]
      ensures Less(GetSortKey(items[0]), GetSortKey(x)) && AtMost(GetSortKey(items[0]), GetSortKey(x))
    {
      var i :| 0 <= i < |items[1..]| && items[1..][i] == x;
      assert items[i + 1] == x;
      LessTotal(GetSortKey(items[0]), GetSortKey(x));
    }
  }

  /** What is kept after the head neither contains the head nor lies in the folder before it. */
  lemma KeptTail(items: seq<ResultItem>, prevFolder: string, next: string)
    requires items != [] && KeysIncrease(items) && AtMost(prevFolder, GetSortKey(items[0]))
    requires prevFolder != "" ==> !HasPrefix(GetSortKey(items[0]), prevFolder)
    ensures forall x :: x in TopChain(items[1..], next) ==> !HasPrefix(GetSortKey(items[0]), GetSortKey(x))
    ensures prevFolder != "" ==> forall x :: x in TopChain(items[1..], next) ==> !HasPrefix(GetSortKey(x), prevFolder)
  {
    hide GetSortKey, Less, HasPrefix, TopChain;
    var key := GetSortKey(items[0]);
    TailAfterHead(items);
    forall x | x in TopChain(items[1..], next)
      ensures !HasPrefix(key, GetSortKey(x))
      ensures prevFolder != "" ==> !HasPrefix(GetSortKey(x), prevFolder)
    {
      TopChainMember(items[1..], next, x);
      if HasPrefix(key, GetSortKey(x)) {
        PrefixFirst(GetSortKey(x), key);
      }
      if prevFolder != "" && HasPrefix(GetSortKey(x), prevFolder) {
        PrefixInterval(prevFolder, key, GetSortKey(x));
      }
    }
  }

  lemma KeptAntichain(item: ResultItem, rest: seq<ResultItem>)
    requires Antichain(rest)
    requires forall x :: x in rest ==> !HasPrefix(GetSortKey(item), GetSortKey(x))
    requires IsFolder(item) ==> forall x :: x in rest ==> !HasPrefix(GetSortKey(x), GetSortKey(item))
    ensures Antichain([item] + rest)
  {
    hide GetSortKey, HasPrefix;
    var all := [item] + rest;
    forall i, j | 0 <= i < |all| && 0 <= j < |all| && i != j && IsFolder(all[i])
      ensures !HasPrefix(GetSortKey(all[j]), GetSortKey(all[i]))
    {
      if i > 0 && j > 0 {
        assert all[i] == rest[i - 1] && all[j] == rest[j - 1];
      } else if i > 0 {
        assert all[i] in rest;
      } else {
        assert all[j] in rest;
      }
    }
  }

  // ----- Bottom chain -----

  function SlashedPath(item: ResultItem): string {
    AppendFolderSuffix(GetItemRelativePath(item))
  }

  function BottomChain(items: seq<ResultItem>, temp: string): seq<ResultItem> {
    if items == [] then []
    else
      var item, rPath := items[0], SlashedPath(items[0]);
      if item.name == "." || (temp != "" && HasPrefix(temp, rPath)) then BottomChain(items[1..], temp)
      else [item] + BottomChain(items[1..], rPath)
  }

  lemma BottomStep(items: seq<ResultItem>, temp: string)
    requires items != []
    ensures var item := items[0];
            var rPath := GetItemRelativePath(item);
            var slashed := if !HasSuffix(rPath, "/") then rPath + "/" else rPath;
            BottomChain(items, temp)
            == if item.name != "." && (temp == "" || !HasPrefix(temp, slashed))
               then [item] + BottomChain(items[1..], slashed)
               else BottomChain(items[1..], temp)
  {
    hide GetItemRelativePath, HasPrefix;
  }

  method FilterBottomChainResults(items: seq<ResultItem>) returns (writer: seq<ResultItem>)
    ensures writer == BottomChain(items, "")
  {
    hide GetItemRelativePath, BottomChain, HasPrefix, HasSuffix;
    writer := [];
    var reader := items;
    var temp := "";
    while reader != []
      invariant BottomChain(items, "") == writer + BottomChain(reader, temp)
      decreases |reader|
    {
      var item := reader[0];
      BottomStep(reader, temp);
      reader := reader[1..];
      if item.name == "." {
        continue;
      }
      var rPath := GetItemRelativePath(item);
      if !HasSuffix(rPath, "/") {
        rPath := rPath + "/";
      }
      if temp == "" || !HasPrefix(temp, rPath) {
        WriteThen(writer, item, BottomChain(reader, rPath));
        writer := writer + [item];
        temp := rPath;
      }
    }
    NoItems(temp);
  }

  ghost predicate KeysDecrease(items: seq<ResultItem>) {
    forall i, j :: 0 <= i < j < |items| ==> Less(GetSortKey(items[j]), GetSortKey(items[i]))
  }

  predicate Beneath(y: ResultItem, x: ResultItem) {
    HasPrefix(SlashedPath(y), SlashedPath(x))
  }

  /** Nothing is listed beneath a file. */
  ghost predicate FilesAreLeaves(items: seq<ResultItem>) {
    forall x, y :: x in items && y in items && x != y && !IsFolder(x) ==> !Beneath(y, x)
  }

  /** `y` is listed before `x`, in descending order, and lies beneath it: then its key starts with that of `x`. */
  lemma BeneathKey(x: ResultItem, y: ResultItem)
    requires IsFolder(x) && Beneath(y, x) && SlashedPath(y) != SlashedPath(x)
    ensures HasPrefix(GetSortKey(y), GetSortKey(x)) && GetSortKey(x) == SlashedPath(x)
  {
    hide GetItemRelativePath;
    var kx, ky, sy := SlashedPath(x), GetSortKey(y), SlashedPath(y);
    assert sy[..|sy|] == sy;
    assert ky[..|kx|] == sy[..|kx|];
  }

  lemma KeyPrefixOfSlashed(x: ResultItem)
    ensures HasPrefix(SlashedPath(x), GetSortKey(x))
    ensures IsFolder(x) ==> SlashedPath(x) == GetSortKey(x)
  {
    hide GetItemRelativePath;
  }

  /** What the one remembered path tells about all items read so far: it lies at or before each of them in the
      list's order, or beneath it. */
  ghost predicate Remembers(read: seq<ResultItem>, t: ResultItem) {
    t in read && forall y :: y in read ==> AtMost(GetSortKey(t), GetSortKey(y)) || Beneath(t, y)
  }

  /** Comparing a later folder with the last kept item tells whether any item read so far lies beneath it. */
  lemma RememberedSuffices(read: seq<ResultItem>, t: ResultItem, x: ResultItem, y: ResultItem)
    requires Remembers(read, t) && y in read && IsFolder(x) && Beneath(y, x) && SlashedPath(y) != SlashedPath(x)
    requires forall z :: z in read ==> Less(GetSortKey(x), GetSortKey(z))
    ensures Beneath(t, x)
  {
    hide GetSortKey, GetItemRelativePath, HasPrefix, SlashedPath;
    if Beneath(t, y) {
      PrefixTransitive(SlashedPath(x), SlashedPath(y), SlashedPath(t));
    } else {
      BeneathKey(x, y);
      LessTotal(GetSortKey(x), GetSortKey(t));
      PrefixInterval(GetSortKey(x), GetSortKey(t), GetSortKey(y));
      KeyPrefixOfSlashed(t);
      PrefixTransitive(GetSortKey(x), GetSortKey(t), SlashedPath(t));
    }
  }

  ghost predicate Bottom(x: ResultItem, items: seq<ResultItem>) {
    forall y :: y in items && y != x ==> !Beneath(y, x)
  }

  lemma BeneathNotBefore(x: ResultItem, y: ResultItem, items: seq<ResultItem>)
    requires FilesAreLeaves(items) && x in items && y in items && x != y && Beneath(y, x)
    ensures IsFolder(x) && AtMost(GetSortKey(x), GetSortKey(y))
    ensures SlashedPath(y) == SlashedPath(x) ==> GetSortKey(y) == GetSortKey(x)
  {
    hide GetSortKey, GetItemRelativePath, HasPrefix, SlashedPath;
    if SlashedPath(y) == SlashedPath(x) {
      SameSlashed(x, y, items);
      LessTotal(GetSortKey(x), GetSortKey(y));
    } else {
      BeneathKey(x, y);
      PrefixFirst(GetSortKey(x), GetSortKey(y));
    }
  }

  lemma SameSlashed(x: ResultItem, y: ResultItem, items: seq<ResultItem>)
    requires FilesAreLeaves(items) && x in items && y in items && x != y && IsFolder(x)
    requires SlashedPath(y) == SlashedPath(x)
    ensures IsFolder(y) && GetSortKey(y) == GetSortKey(x)
  {
    hide GetItemRelativePath;
    assert Beneath(x, y);
    KeyPrefixOfSlashed(x);
    KeyPrefixOfSlashed(y);
  }

  /** The head of the unread items is kept if and only if nothing at all is listed beneath it. */
  lemma KeptIffBottom(read: seq<ResultItem>, x: ResultItem, rest: seq<ResultItem>, t: Option<ResultItem>)
    requires KeysDecrease(read + [x] + rest) && FilesAreLeaves(read + [x] + rest)
    requires if t.Some? then Remembers(read, t.value) else read == []
    ensures Bottom(x, read + [x] + rest) <==> t.None? || !Beneath(t.value, x)
  {
    hide GetSortKey, Beneath, SlashedPath, Less;
    var items := read + [x] + rest;
    assert items[|read|] == x;
    forall z | z in read
      ensures z in items && Less(GetSortKey(x), GetSortKey(z)) && z != x
    {
      var i :| 0 <= i < |read| && read[i] == z;
      assert items[i] == z;
      LessTotal(GetSortKey(x), GetSortKey(x));
    }
    if t.None? || !Beneath(t.value, x) {
      forall y | y in items && y != x
        ensures !Beneath(y, x)
      {
        NoneBeneath(read, x, rest, t, y);
      }
    }
  }

  lemma NoneBeneath(read: seq<ResultItem>, x: ResultItem, rest: seq<ResultItem>, t: Option<ResultItem>, y: ResultItem)
    requires KeysDecrease(read + [x] + rest) && FilesAreLeaves(read + [x] + rest)
    requires if t.Some? then Remembers(read, t.value) else read == []
    requires forall z :: z in read ==> Less(GetSortKey(x), GetSortKey(z))
    requires y in read + [x] + rest && y != x && (t.None? || !Beneath(t.value, x))
    ensures !Beneath(y, x)
  {
    hide GetSortKey, Beneath, SlashedPath, Less, FilesAreLeaves;
    var items := read + [x] + rest;
    assert items[|read|] == x;
    if Beneath(y, x) {
      BeneathNotBefore(x, y, items);
      var j :| 0 <= j < |items| && items[j] == y;
      if j < |read| {
        assert y in read;
        LessTotal(GetSortKey(x), GetSortKey(y));
        RememberedSuffices(read, t.value, x, y);
      }
    }
  }

  lemma {:induction false} BottomChainMember(items: seq<ResultItem>, temp: string, x: ResultItem)
    requires x in BottomChain(items, temp)
    ensures x in items && x.name != "."
  {
    hide GetItemRelativePath, HasPrefix, SlashedPath;
    var item, rPath := items[0], SlashedPath(items[0]);
    if item.name == "." || (temp != "" && HasPrefix(temp, rPath)) {
      BottomChainMember(items[1..], temp, x);
    } else if x != item {
      BottomChainMember(items[1..], rPath, x);
    }
  }

  lemma {:induction false} BottomChainFrom(read: seq<ResultItem>, rest: seq<ResultItem>, t: Option<ResultItem>,
                                           x: ResultItem)
    requires KeysDecrease(read + rest) && FilesAreLeaves(read + rest) && x in rest
    requires forall y :: y in rest ==> y.name != "."
    requires if t.Some? then Remembers(read, t.value) else read == []
    ensures x in BottomChain(rest, if t.Some? then SlashedPath(t.value) else "") <==> Bottom(x, read + rest)
    decreases |rest|
  {
    hide GetSortKey, GetItemRelativePath, SlashedPath, Less, HasPrefix, FilesAreLeaves, Bottom, Remembers;
    var head, tail := rest[0], rest[1..];
    assert read + rest == read + [head] + tail;
    KeptIffBottom(read, head, tail, t);
    var kept := t.None? || !Beneath(t.value, head);
    if t.Some? {
      KeyNotEmpty(t.value);
    }
    if x == head {
      if !kept && x in BottomChain(tail, SlashedPath(t.value)) {
        BottomChainMember(tail, SlashedPath(t.value), x);
        HeadNotRepeated(read, head, tail);
      }
    } else {
      RememberNext(read, head, tail, t);
      BottomChainFrom(read + [head], tail, if kept then Some(head) else t, x);
    }
  }

  lemma HeadNotRepeated(read: seq<ResultItem>, head: ResultItem, tail: seq<ResultItem>)
    requires KeysDecrease(read + [head] + tail)
    ensures head !in tail
  {
    hide GetSortKey, Less;
    var items := read + [head] + tail;
    forall i | 0 <= i < |tail|
      ensures tail[i] != head
    {
      assert items[|read|] == head && items[|read| + 1 + i] == tail[i];
      LessTotal(GetSortKey(head), GetSortKey(head));
    }
  }

  lemma RememberNext(read: seq<ResultItem>, head: ResultItem, tail: seq<ResultItem>, t: Option<ResultItem>)
    requires KeysDecrease(read + [head] + tail)
    requires if t.Some? then Remembers(read, t.value) else read == []
    ensures Remembers(read + [head], if t.None? || !Beneath(t.value, head) then head else t.value)
  {
    hide GetSortKey, Beneath, Less;
    var items := read + [head] + tail;
    assert items[|read|] == head;
    forall y | y in read + [head]
      ensures AtMost(GetSortKey(head), GetSortKey(y))
    {
      var i :| 0 <= i < |read + [head]| && (read + [head])[i] == y;
      assert items[i] == y;
      LessTotal(GetSortKey(head), GetSortKey(y));
    }
  }

  function Named(items: seq<ResultItem>): seq<ResultItem> {
    if items == [] then []
    else (if items[0].name == "." then [] else [items[0]]) + Named(items[1..])
  }

  lemma {:induction false} BottomChainNamed(items: seq<ResultItem>, temp: string)
    ensures BottomChain(items, temp) == BottomChain(Named(items), temp)
    ensures forall x :: x in Named(items) ==> x in items && x.name != "."
  {
    hide GetItemRelativePath, HasPrefix, SlashedPath;
    if items != [] {
      var item := items[0];
      BottomChainNamed(items[1..], temp);
      BottomChainNamed(items[1..], SlashedPath(item));
      assert items == [item] + items[1..];
      if item.name != "." {
        assert Named(items) == [item] + Named(items[1..]);
        assert Named(items)[0] == item && Named(items)[1..] == Named(items[1..]);
      } else {
        assert Named(items) == Named(items[1..]);
      }
    }
  }

  /** On descending keys, and when nothing is listed beneath a file, an item is kept if and only if no other listed
      item lies beneath it, although the code compares with the last kept path only. */
  lemma BottomChainExact(items: seq<ResultItem>, x: ResultItem)
    requires KeysDecrease(Named(items)) && FilesAreLeaves(Named(items)) && x in Named(items)
    ensures x in BottomChain(items, "") <==> Bottom(x, Named(items))
  {
    BottomChainNamed(items, "");
    assert [] + Named(items) == Named(items);
    BottomChainFrom([], Named(items), None, x);
  }
}
