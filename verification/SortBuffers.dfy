/** Splitting a reader into sorted buffers of a maximal size (utils/io/content/contentreader.go). A reader is the
    sequence of the records still to be read, a writer the sequence of the records written so far. */
module SortBuffers {
  import opened Sequences
  import opened Wrappers
  import opened StringOrder
  import opened SortedRecords

  /** What SortAndSaveBufferToFile writes: for each key in order, the item the map holds for it. */
  function Saved<V>(items: map<string, V>, keys: seq<string>, ascending: bool): (saved: seq<V>)
    requires forall k :: k in keys ==> k in items
    ensures |saved| == |keys|
  {
    SortKeysSorts(keys, ascending);
    var sorted := SortKeys(keys, ascending);
    SameMembers(keys, sorted);
    seq(|keys|, i requires 0 <= i < |keys| => items[sorted[i]])
  }

  method SortAndSaveBufferToFile<V>(items: map<string, V>, allKeys: seq<string>, ascending: bool)
    returns (writer: seq<V>)
    requires forall k :: k in allKeys ==> k in items
    ensures writer == Saved(items, allKeys, ascending)
  {
    writer := [];
    var sorted := SortKeys(allKeys, ascending);
    ghost var saved := Saved(items, allKeys, ascending);
    SortKeysSorts(allKeys, ascending);
    var i := 0;
    while i < |sorted|
      invariant 0 <= i <= |sorted|
      invariant writer == saved[..i]
    {
      assert sorted[i] in multiset(sorted);
      writer := writer + [items[sorted[i]]];
      i := i + 1;
    }
  }

  /** The buffer's map and its list of keys agree. */
  ghost predicate BufferAgrees<R>(items: map<string, SortRecord<R>>, keys: seq<string>) {
    && (forall k :: k in keys <==> k in items)
    && (forall i, j :: 0 <= i < j < |keys| ==> keys[i] != keys[j])
    && (forall k :: k in items ==> items[k].key == k)
  }

  function InBuffer<R>(items: map<string, SortRecord<R>>, key: string): Option<SortRecord<R>> {
    if key in items then Some(items[key]) else None
  }

  lemma SavedLookup<R>(items: map<string, SortRecord<R>>, keys: seq<string>, ascending: bool)
    requires BufferAgrees(items, keys)
    ensures StrictlySorted(Saved(items, keys, ascending), ascending)
    ensures forall key :: Lookup(Saved(items, keys, ascending), key) == InBuffer(items, key)
  {
    hide Before, SortKeys;
    var sorted, saved := SortKeys(keys, ascending), Saved(items, keys, ascending);
    SortKeysSorts(keys, ascending);
    BeforeOrder(ascending);
    DistinctSame(keys, sorted);
    forall i | 0 <= i < |sorted|
      ensures sorted[i] in keys && saved[i] == items[sorted[i]] && saved[i].key == sorted[i]
    {
      assert sorted[i] in multiset(sorted);
    }
    forall key
      ensures Lookup(saved, key) == InBuffer(items, key)
    {
      LookupFound(saved, key);
      if key in items {
        assert key in multiset(keys);
        var i :| 0 <= i < |sorted| && sorted[i] == key;
        assert saved[i].key == key;
      }
    }
  }

  ghost predicate AllFull<T>(buffers: seq<seq<T>>, maxBufferSize: nat) {
    forall i :: 0 <= i < |buffers| ==> |buffers[i]| == maxBufferSize
  }

  /** All buffers but the last are full, and the last is not empty and no longer. */
  ghost predicate BuffersFit<T>(buffers: seq<seq<T>>, maxBufferSize: nat) {
    buffers != [] ==>
      AllFull(buffers[..|buffers| - 1], maxBufferSize) && 0 < |buffers[|buffers| - 1]| <= maxBufferSize
  }

  /** splitReaderToSortedBufferSizeReadersByCalculatedKey: every buffer is strictly sorted, and searched in order the
      buffers give for every key the record that comes first in the input. */
  method SplitToSortedBuffers<R>(reader: seq<R>, getKey: R -> string, maxBufferSize: nat, ascending: bool)
    returns (splitReaders: seq<seq<SortRecord<R>>>)
    ensures forall s :: s in splitReaders ==> StrictlySorted(s, ascending)
    ensures maxBufferSize > 0 ==> BuffersFit(splitReaders, maxBufferSize)
    ensures forall key :: LookupAll(splitReaders, key) == Lookup(Keyed(reader, getKey), key)
  {
    hide Before, Saved, StrictlySorted;
    splitReaders := [];
    var items: map<string, SortRecord<R>> := map[];
    var allKeys: seq<string> := [];
    var n := 0;
    while n < |reader|
      invariant 0 <= n <= |reader|
      invariant BufferAgrees(items, allKeys)
      invariant forall s :: s in splitReaders ==> StrictlySorted(s, ascending)
      invariant maxBufferSize > 0 ==> |allKeys| < maxBufferSize && AllFull(splitReaders, maxBufferSize)
      invariant forall key ::
                  OrElse(LookupAll(splitReaders, key), InBuffer(items, key)) == Lookup(Keyed(reader[..n], getKey), key)
    {
      var sortKey := getKey(reader[n]);
      ReadOne(reader, getKey, n);
      if sortKey !in items {
        items := items[sortKey := SortRecord(sortKey, reader[n])];
        allKeys := allKeys + [sortKey];
        if |allKeys| == maxBufferSize {
          var sortedFile := SortAndSaveBufferToFile(items, allKeys, ascending);
          Flushed(splitReaders, items, allKeys, ascending);
          splitReaders := splitReaders + [sortedFile];
          items, allKeys := map[], [];
        }
      }
      n := n + 1;
    }
    assert reader[..n] == reader;
    if |allKeys| > 0 {
      var sortedFile := SortAndSaveBufferToFile(items, allKeys, ascending);
      Flushed(splitReaders, items, allKeys, ascending);
      splitReaders := splitReaders + [sortedFile];
    } else {
      assert items == map[];
    }
  }

  lemma ReadOne<R>(reader: seq<R>, getKey: R -> string, n: nat)
    requires n < |reader|
    ensures forall key :: Lookup(Keyed(reader[..n + 1], getKey), key)
              == OrElse(Lookup(Keyed(reader[..n], getKey), key),
                        if key == getKey(reader[n]) then Some(SortRecord(key, reader[n])) else None)
  {
    var last := SortRecord(getKey(reader[n]), reader[n]);
    assert Keyed(reader[..n + 1], getKey) == Keyed(reader[..n], getKey) + [last];
    forall key
      ensures Lookup(Keyed(reader[..n + 1], getKey), key)
              == OrElse(Lookup(Keyed(reader[..n], getKey), key),
                        if key == getKey(reader[n]) then Some(SortRecord(key, reader[n])) else None)
    {
      LookupConcat(Keyed(reader[..n], getKey), [last], key);
    }
  }

  lemma Flushed<R>(sources: seq<seq<SortRecord<R>>>, items: map<string, SortRecord<R>>, keys: seq<string>,
                   ascending: bool)
    requires BufferAgrees(items, keys)
    ensures StrictlySorted(Saved(items, keys, ascending), ascending)
    ensures forall key :: LookupAll(sources + [Saved(items, keys, ascending)], key)
                          == OrElse(LookupAll(sources, key), InBuffer(items, key))
  {
    SavedLookup(items, keys, ascending);
    forall key
      ensures LookupAll(sources + [Saved(items, keys, ascending)], key)
              == OrElse(LookupAll(sources, key), InBuffer(items, key))
    {
      LookupAllConcat(sources, [Saved(items, keys, ascending)], key);
    }
  }
}
