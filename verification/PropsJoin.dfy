/** Joining search results with the records that carry their properties, a buffer at a time
    (artifactory/services/utils/artifactoryutils.go). */
module PropsJoin {
  import opened Sequences
  import opened ResultItems

  // ----- The plain join -----

  /** The item with the properties of the last record for its path, if there is one. */
  function Loaded(item: ResultItem, withProps: seq<ResultItem>): ResultItem {
    if withProps == [] then item
    else
      var last := withProps[|withProps| - 1];
      if GetItemRelativePath(last) == GetItemRelativePath(item) then item.(properties := last.properties)
      else Loaded(item, withProps[..|withProps| - 1])
  }

  function LeftJoin(items: seq<ResultItem>, withProps: seq<ResultItem>): seq<ResultItem> {
    seq(|items|, i requires 0 <= i < |items| => Loaded(items[i], withProps))
  }

  // ----- The join of one buffer -----

  /** The buffer's map from path to item; the item is given by its place in the write order. */
  function PlaceOf(batch: seq<ResultItem>): (m: map<string, nat>)
    ensures forall k :: k in m ==> m[k] < |batch|
  {
    if batch == [] then map[]
    else
      var n := |batch| - 1;
      PlaceOf(batch[..n])[GetItemRelativePath(batch[n]) := n]
  }

  /** No later item of the buffer has this item's path, so the map still points to it. */
  predicate Owns(batch: seq<ResultItem>, i: nat)
    requires i < |batch|
  {
    forall j :: i < j < |batch| ==> GetItemRelativePath(batch[j]) != GetItemRelativePath(batch[i])
  }

  function LoadBatch(batch: seq<ResultItem>, withProps: seq<ResultItem>): (loaded: seq<ResultItem>)
    ensures |loaded| == |batch|
  {
    seq(|batch|, i requires 0 <= i < |batch| => if Owns(batch, i) then Loaded(batch[i], withProps) else batch[i])
  }

  lemma {:induction false} PlaceOfOwner(batch: seq<ResultItem>, path: string)
    ensures path in PlaceOf(batch) ==>
              var i := PlaceOf(batch)[path]; GetItemRelativePath(batch[i]) == path && Owns(batch, i)
    ensures path !in PlaceOf(batch) ==> forall i :: 0 <= i < |batch| ==> GetItemRelativePath(batch[i]) != path
  {
    hide GetItemRelativePath;
    if batch != [] {
      var n := |batch| - 1;
      PlaceOfOwner(batch[..n], path);
      assert forall i :: 0 <= i < n ==> batch[..n][i] == batch[i];
    }
  }

  lemma LoadedOneMore(item: ResultItem, withProps: seq<ResultItem>, n: nat)
    requires n < |withProps|
    ensures Loaded(item, withProps[..n + 1])
            == if GetItemRelativePath(withProps[n]) == GetItemRelativePath(item)
               then item.(properties := withProps[n].properties)
               else Loaded(item, withProps[..n])
  {
    hide GetItemRelativePath;
    assert withProps[..n + 1][..n] == withProps[..n];
  }

  /** The items only differ in their properties from the ones read. */
  lemma {:induction false} LoadedRest(item: ResultItem, withProps: seq<ResultItem>)
    ensures Loaded(item, withProps) == item.(properties := Loaded(item, withProps).properties)
  {
    hide GetItemRelativePath;
    if withProps != [] {
      LoadedRest(item, withProps[..|withProps| - 1]);
    }
  }

  lemma RecordUpdatesOwner(batch: seq<ResultItem>, withProps: seq<ResultItem>, n: nat)
    requires n < |withProps|
    ensures var path, before := GetItemRelativePath(withProps[n]), LoadBatch(batch, withProps[..n]);
            LoadBatch(batch, withProps[..n + 1])
            == if path !in PlaceOf(batch) then before
               else
                 var i := PlaceOf(batch)[path];
                 before[i := before[i].(properties := withProps[n].properties)]
  {
    hide GetItemRelativePath, PlaceOf, Loaded, Owns;
    var path := GetItemRelativePath(withProps[n]);
    var before, after := LoadBatch(batch, withProps[..n]), LoadBatch(batch, withProps[..n + 1]);
    PlaceOfOwner(batch, path);
    forall i | 0 <= i < |batch|
      ensures after[i] == if path in PlaceOf(batch) && PlaceOf(batch)[path] == i
                          then before[i].(properties := withProps[n].properties) else before[i]
    {
      LoadedOneMore(batch[i], withProps, n);
      LoadedRest(batch[i], withProps[..n]);
      if Owns(batch, i) && GetItemRelativePath(batch[i]) == path {
        OneOwner(batch, i, PlaceOf(batch)[path]);
      }
    }
  }

  /** Of the items of a buffer with one path only the last one gets properties. */
  lemma LastIsLoaded(batch: seq<ResultItem>, withProps: seq<ResultItem>, i: nat)
    requires i < |batch|
    ensures LoadBatch(batch, withProps)[i]
         == if exists j :: i < j < |batch| && GetItemRelativePath(batch[j]) == GetItemRelativePath(batch[i])
            then batch[i] else Loaded(batch[i], withProps)
  {
    hide GetItemRelativePath, Loaded;
  }

  lemma OneOwner(batch: seq<ResultItem>, i: nat, j: nat)
    requires i < |batch| && j < |batch| && Owns(batch, i) && Owns(batch, j)
    requires GetItemRelativePath(batch[i]) == GetItemRelativePath(batch[j])
    ensures i == j
  {
    hide GetItemRelativePath;
  }

  method UpdateProps(readerWithProps: seq<ResultItem>, buffer: map<string, nat>, writeOrder: seq<ResultItem>)
    returns (written: seq<ResultItem>)
    requires buffer == PlaceOf(writeOrder)
    ensures written == LoadBatch(writeOrder, readerWithProps)
  {
    hide GetItemRelativePath, PlaceOf, Owns, LoadBatch;
    if |buffer| == 0 {
      EmptyBuffer(writeOrder, readerWithProps);
      return [];
    }
    written := writeOrder;
    NoRecords(writeOrder);
    var n := 0;
    while n < |readerWithProps|
      invariant 0 <= n <= |readerWithProps|
      invariant written == LoadBatch(writeOrder, readerWithProps[..n])
    {
      RecordUpdatesOwner(writeOrder, readerWithProps, n);
      var resultItem := readerWithProps[n];
      var path := GetItemRelativePath(resultItem);
      if path in buffer {
        written := written[buffer[path] := written[buffer[path]].(properties := resultItem.properties)];
      }
      n := n + 1;
    }
    assert readerWithProps[..n] == readerWithProps;
  }

  lemma EmptyBuffer(batch: seq<ResultItem>, withProps: seq<ResultItem>)
    requires |PlaceOf(batch)| == 0
    ensures LoadBatch(batch, withProps) == []
  {
    hide PlaceOf;
    if batch != [] {
      SomePlace(batch);
    }
  }

  lemma SomePlace(batch: seq<ResultItem>)
    requires batch != []
    ensures |PlaceOf(batch)| > 0
  {
    hide GetItemRelativePath;
    assert GetItemRelativePath(batch[|batch| - 1]) in PlaceOf(batch);
  }

  lemma NoRecords(batch: seq<ResultItem>)
    ensures LoadBatch(batch, []) == batch
    ensures LoadBatch(batch, [][..0]) == batch
  {
    hide Owns;
  }

  // ----- All buffers -----

  datatype Batches = Batches(full: seq<seq<ResultItem>>, open: seq<ResultItem>)

  /** A buffer is full when it holds `maxBufferSize` different paths. */
  function Batch(items: seq<ResultItem>, maxBufferSize: nat): Batches {
    if items == [] then Batches([], [])
    else
      var b := Batch(items[..|items| - 1], maxBufferSize);
      var open := b.open + [items[|items| - 1]];
      if |PlaceOf(open)| == maxBufferSize then Batches(b.full + [open], []) else Batches(b.full, open)
  }

  function AllBatches(items: seq<ResultItem>, maxBufferSize: nat): seq<seq<ResultItem>> {
    Batch(items, maxBufferSize).full + [Batch(items, maxBufferSize).open]
  }

  function LoadAll(batches: seq<seq<ResultItem>>, withProps: seq<ResultItem>): seq<ResultItem> {
    if batches == [] then []
    else LoadAll(batches[..|batches| - 1], withProps) + LoadBatch(batches[|batches| - 1], withProps)
  }

  method LoadMissingProperties(reader: seq<ResultItem>, readerWithProps: seq<ResultItem>, maxBufferSize: nat)
    returns (resultFile: seq<ResultItem>)
    ensures resultFile == LoadAll(AllBatches(reader, maxBufferSize), readerWithProps)
  {
    hide GetItemRelativePath, PlaceOf, LoadBatch, LoadAll, Batch;
    var buffer: map<string, nat> := map[];
    var writeOrder: seq<ResultItem> := [];
    resultFile := [];
    ghost var b := Batches([], []);
    NothingRead(maxBufferSize, readerWithProps);
    assert reader[..0] == [];
    var n := 0;
    while n < |reader|
      invariant 0 <= n <= |reader|
      invariant b == Batch(reader[..n], maxBufferSize)
      invariant writeOrder == b.open && buffer == PlaceOf(writeOrder)
      invariant resultFile == LoadAll(b.full, readerWithProps)
    {
      var resultItem := reader[n];
      ReadNext(reader, n, maxBufferSize);
      buffer := buffer[GetItemRelativePath(resultItem) := |writeOrder|];
      writeOrder := writeOrder + [resultItem];
      b := Batches(b.full, writeOrder);
      if |buffer| == maxBufferSize {
        var written := UpdateProps(readerWithProps, buffer, writeOrder);
        LoadOneMore(b.full, writeOrder, readerWithProps);
        resultFile := resultFile + written;
        b := Batches(b.full + [writeOrder], []);
        buffer, writeOrder := map[], [];
        NothingRead(maxBufferSize, readerWithProps);
      }
      n := n + 1;
    }
    assert reader[..n] == reader;
    var written := UpdateProps(readerWithProps, buffer, writeOrder);
    LoadOneMore(b.full, writeOrder, readerWithProps);
    resultFile := resultFile + written;
  }

  lemma NothingRead(maxBufferSize: nat, withProps: seq<ResultItem>)
    ensures Batch([], maxBufferSize) == Batches([], []) && PlaceOf([]) == map[] && LoadAll([], withProps) == []
  {
  }

  lemma ReadNext(reader: seq<ResultItem>, n: nat, maxBufferSize: nat)
    requires n < |reader|
    ensures var b := Batch(reader[..n], maxBufferSize);
            var open := b.open + [reader[n]];
            && PlaceOf(open) == PlaceOf(b.open)[GetItemRelativePath(reader[n]) := |b.open|]
            && Batch(reader[..n + 1], maxBufferSize)
               == if |PlaceOf(open)| == maxBufferSize then Batches(b.full + [open], []) else Batches(b.full, open)
  {
    hide GetItemRelativePath;
    assert reader[..n + 1][..n] == reader[..n];
    var b := Batch(reader[..n], maxBufferSize);
    assert (b.open + [reader[n]])[..|b.open|] == b.open;
  }

  lemma LoadOneMore(batches: seq<seq<ResultItem>>, batch: seq<ResultItem>, withProps: seq<ResultItem>)
    ensures LoadAll(batches + [batch], withProps) == LoadAll(batches, withProps) + LoadBatch(batch, withProps)
  {
    assert (batches + [batch])[..|batches|] == batches;
  }

  // ----- The batched join is the plain join -----

  ghost predicate DistinctPaths(items: seq<ResultItem>) {
    forall i, j :: 0 <= i < j < |items| ==> GetItemRelativePath(items[i]) != GetItemRelativePath(items[j])
  }

  lemma BatchStep(items: seq<ResultItem>, maxBufferSize: nat)
    requires items != []
    ensures var b, all := Batch(items[..|items| - 1], maxBufferSize), Batch(items, maxBufferSize);
            var open := b.open + [items[|items| - 1]];
            all == Batches(b.full + [open], []) || all == Batches(b.full, open)
  {
    hide PlaceOf;
  }

  lemma NothingBatched(maxBufferSize: nat)
    ensures Batch([], maxBufferSize) == Batches([], []) && Flat<ResultItem>([]) == []
  {
  }

  lemma {:induction false} BatchesJoin(items: seq<ResultItem>, maxBufferSize: nat)
    ensures Flat(Batch(items, maxBufferSize).full) + Batch(items, maxBufferSize).open == items
  {
    hide Batch, Flat;
    if items == [] {
      NothingBatched(maxBufferSize);
    } else {
      var n := |items| - 1;
      var b := Batch(items[..n], maxBufferSize);
      BatchesJoin(items[..n], maxBufferSize);
      BatchStep(items, maxBufferSize);
      FlatAppend(b.full, b.open + [items[n]]);
      assert items == items[..n] + [items[n]];
      assert Flat(b.full) + (b.open + [items[n]]) == Flat(b.full) + b.open + [items[n]];
    }
  }

  lemma AllBatchesJoin(items: seq<ResultItem>, maxBufferSize: nat)
    ensures Flat(AllBatches(items, maxBufferSize)) == items
  {
    hide Batch, Flat;
    BatchesJoin(items, maxBufferSize);
    FlatAppend(Batch(items, maxBufferSize).full, Batch(items, maxBufferSize).open);
  }

  /** For a positive maximal size a full buffer holds exactly that many different paths, and the open one fewer. */
  lemma {:induction false} BatchesFit(items: seq<ResultItem>, maxBufferSize: nat)
    requires maxBufferSize > 0
    ensures var b := Batch(items, maxBufferSize);
            && (forall i :: 0 <= i < |b.full| ==> |Paths(b.full[i])| == maxBufferSize)
            && |Paths(b.open)| < maxBufferSize
  {
    hide PlaceOf, Paths;
    if items == [] {
      PathsCount([]);
      NothingPlaced();
    } else {
      var n := |items| - 1;
      var open := Batch(items[..n], maxBufferSize).open;
      BatchesFit(items[..n], maxBufferSize);
      PathsCount(open);
      PathsCount(open + [items[n]]);
      PathsCount([]);
      NothingPlaced();
      OneMorePlace(open, items[n]);
    }
  }

  /** The different paths of a buffer. */
  function Paths(batch: seq<ResultItem>): set<string> {
    set x | x in batch :: GetItemRelativePath(x)
  }

  lemma PathsCount(batch: seq<ResultItem>)
    ensures |PlaceOf(batch)| == |Paths(batch)|
  {
    hide GetItemRelativePath;
    forall path
      ensures path in PlaceOf(batch) <==> path in Paths(batch)
    {
      PlaceOfOwner(batch, path);
    }
    assert PlaceOf(batch).Keys == Paths(batch);
  }

  lemma NothingPlaced()
    ensures |PlaceOf([])| == 0
  {
  }

  lemma OneMorePlace(open: seq<ResultItem>, x: ResultItem)
    ensures |PlaceOf(open + [x])| <= |PlaceOf(open)| + 1
  {
    hide GetItemRelativePath;
    assert (open + [x])[..|open|] == open;
    var m := PlaceOf(open);
    assert PlaceOf(open + [x]).Keys == m.Keys + {GetItemRelativePath(x)};
  }

  lemma {:induction false} LoadAllIffBatches(batches: seq<seq<ResultItem>>, withProps: seq<ResultItem>)
    ensures LoadAll(batches, withProps) == LeftJoin(Flat(batches), withProps) <==>
            forall b :: 0 <= b < |batches| ==> LoadBatch(batches[b], withProps) == LeftJoin(batches[b], withProps)
    ensures |LoadAll(batches, withProps)| == |Flat(batches)|
  {
    hide Loaded, LoadBatch;
    if batches != [] {
      var init, last := batches[..|batches| - 1], batches[|batches| - 1];
      LoadAllIffBatches(init, withProps);
      var x, y := LoadAll(init, withProps), LoadBatch(last, withProps);
      var u, v := LeftJoin(Flat(init), withProps), LeftJoin(last, withProps);
      assert batches == init + [last];
      FlatAppend(init, last);
      LeftJoinConcat(Flat(init), last, withProps);
      assert LeftJoin(Flat(batches), withProps) == u + v;
      assert LoadAll(batches, withProps) == x + y;
      SamePieces(x, y, u, v);
      assert forall b :: 0 <= b < |init| ==> init[b] == batches[b];
    }
  }

  lemma LeftJoinConcat(a: seq<ResultItem>, b: seq<ResultItem>, withProps: seq<ResultItem>)
    ensures LeftJoin(a + b, withProps) == LeftJoin(a, withProps) + LeftJoin(b, withProps)
  {
    hide Loaded;
  }

  lemma SamePieces<T>(x: seq<T>, y: seq<T>, u: seq<T>, v: seq<T>)
    requires |x| == |u| && |y| == |v|
    ensures x + y == u + v <==> x == u && y == v
  {
    if x + y == u + v {
      assert x == (x + y)[..|x|] == u;
      assert y == (x + y)[|x|..] == v;
    }
  }

  /** Joining one buffer is the plain join, whatever the records, if and only if its paths are distinct. */
  lemma BatchExactIff(batch: seq<ResultItem>)
    ensures (forall withProps :: LoadBatch(batch, withProps) == LeftJoin(batch, withProps)) <==> DistinctPaths(batch)
  {
    hide GetItemRelativePath, Loaded;
    if DistinctPaths(batch) {
      assert forall withProps :: LoadBatch(batch, withProps) == LeftJoin(batch, withProps);
    } else {
      var withProps := MissedRecord(batch);
    }
  }

  lemma MissedRecord(batch: seq<ResultItem>) returns (withProps: seq<ResultItem>)
    requires !DistinctPaths(batch)
    ensures LoadBatch(batch, withProps) != LeftJoin(batch, withProps)
  {
    hide GetItemRelativePath;
    var i, j :| 0 <= i < j < |batch| && GetItemRelativePath(batch[i]) == GetItemRelativePath(batch[j]);
    var record := batch[i].(properties := [Property("k", "v")] + batch[i].properties);
    SamePath(batch[i], record.properties);
    withProps := [record];
    assert Loaded(batch[i], withProps) == record;
    assert |record.properties| != |batch[i].properties|;
    assert LoadBatch(batch, withProps)[i] == batch[i];
    assert LeftJoin(batch, withProps)[i] == record;
  }

  lemma SamePath(item: ResultItem, properties: seq<Property>)
    ensures GetItemRelativePath(item.(properties := properties)) == GetItemRelativePath(item)
  {
    hide JoinPath, AppendFolderSuffix;
  }

  /** For items with distinct paths the buffered join equals the plain, order-preserving left join, for every buffer
      size. */
  lemma BatchedJoinExact(items: seq<ResultItem>, withProps: seq<ResultItem>, maxBufferSize: nat)
    requires DistinctPaths(items)
    ensures LoadAll(AllBatches(items, maxBufferSize), withProps) == LeftJoin(items, withProps)
  {
    hide GetItemRelativePath, LoadBatch, LeftJoin, Batch;
    var batches := AllBatches(items, maxBufferSize);
    AllBatchesJoin(items, maxBufferSize);
    LoadAllIffBatches(batches, withProps);
    PiecesDistinct(batches);
    forall b | 0 <= b < |batches|
      ensures LoadBatch(batches[b], withProps) == LeftJoin(batches[b], withProps)
    {
      BatchExactIff(batches[b]);
    }
  }

  lemma {:induction false} PiecesDistinct(batches: seq<seq<ResultItem>>)
    requires DistinctPaths(Flat(batches))
    ensures forall b :: 0 <= b < |batches| ==> DistinctPaths(batches[b])
  {
    hide DistinctPaths, Flat;
    if batches != [] {
      var init, last := batches[..|batches| - 1], batches[|batches| - 1];
      assert batches == init + [last];
      FlatAppend(init, last);
      PartsDistinct(Flat(init), last);
      PiecesDistinct(init);
      assert forall b :: 0 <= b < |init| ==> init[b] == batches[b];
    }
  }

  lemma PartsDistinct(a: seq<ResultItem>, b: seq<ResultItem>)
    requires DistinctPaths(a + b)
    ensures DistinctPaths(a) && DistinctPaths(b)
  {
    hide GetItemRelativePath;
    assert forall i :: 0 <= i < |a| ==> a[i] == (a + b)[i];
    assert forall i :: 0 <= i < |b| ==> b[i] == (a + b)[|a| + i];
  }

  /** The buffered join equals the plain one, whatever the records, if and only if no buffer holds two items of one
      path. */
  lemma BatchedJoinExactIff(items: seq<ResultItem>, maxBufferSize: nat)
    ensures (forall withProps :: LoadAll(AllBatches(items, maxBufferSize), withProps) == LeftJoin(items, withProps))
            <==> forall b :: 0 <= b < |AllBatches(items, maxBufferSize)| ==>
                 DistinctPaths(AllBatches(items, maxBufferSize)[b])
  {
    hide GetItemRelativePath, LoadBatch, LeftJoin, Batch, DistinctPaths, LoadAll;
    var batches := AllBatches(items, maxBufferSize);
    AllBatchesJoin(items, maxBufferSize);
    if forall b :: 0 <= b < |batches| ==> DistinctPaths(batches[b]) {
      forall withProps
        ensures LoadAll(batches, withProps) == LeftJoin(items, withProps)
      {
        LoadAllIffBatches(batches, withProps);
        forall b | 0 <= b < |batches|
          ensures LoadBatch(batches[b], withProps) == LeftJoin(batches[b], withProps)
        {
          BatchExactIff(batches[b]);
        }
      }
    } else {
      var b :| 0 <= b < |batches| && !DistinctPaths(batches[b]);
      var withProps := MissedRecord(batches[b]);
      LoadAllIffBatches(batches, withProps);
    }
  }
}
