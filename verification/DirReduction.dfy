/** Sorting search results by their keys and reducing them to the bottom-most items (ReduceDirResult in
    artifactory/services/utils/searchutil.go). */
module DirReduction {
  import opened Wrappers
  import opened StringOrder
  import opened SortedRecords
  import opened ContentReader
  import opened ResultItems
  import opened SearchUtil

  /** One item of each key, in either direction. */
  ghost function InKeyOrder(items: seq<ResultItem>, ascending: bool): seq<ResultItem> {
    Records(SortDistinct(Keyed(items, GetSortKey), ascending))
  }

  lemma {:induction false} LookupSorted<R>(sorted: seq<SortRecord<R>>, i: nat, ascending: bool)
    requires StrictlySorted(sorted, ascending) && i < |sorted|
    ensures Lookup(sorted, sorted[i].key) == Some(sorted[i])
  {
    hide Before;
    BeforeOrder(ascending);
    if i > 0 {
      LookupSorted(sorted[1..], i - 1, ascending);
    }
  }

  /** The order is strict, only items are listed, and the key of every item is. */
  lemma InKeyOrderFacts(items: seq<ResultItem>, ascending: bool)
    ensures var sorted := InKeyOrder(items, ascending);
            && (forall i, j :: 0 <= i < j < |sorted| ==>
                  Before(GetSortKey(sorted[i]), GetSortKey(sorted[j]), ascending))
            && (forall x :: x in sorted ==> x in items)
            && (forall y :: y in items ==> exists x :: x in sorted && GetSortKey(x) == GetSortKey(y))
  {
    hide GetSortKey, Before, SortDistinct, InKeyOrder;
    var keyed := Keyed(items, GetSortKey);
    var sorted := SortDistinct(keyed, ascending);
    SortDistinctSorts(keyed, ascending);
    InKeyOrderAre(items, ascending);
    forall i | 0 <= i < |sorted|
      ensures sorted[i].record in items && sorted[i].key == GetSortKey(sorted[i].record)
    {
      SortedIsKeyed(items, ascending, i);
    }
    forall y | y in items
      ensures exists x :: x in InKeyOrder(items, ascending) && GetSortKey(x) == GetSortKey(y)
    {
      var k :| 0 <= k < |items| && items[k] == y;
      assert keyed[k].key == GetSortKey(y);
      LookupFound(keyed, GetSortKey(y));
      LookupFound(sorted, GetSortKey(y));
      var i :| 0 <= i < |sorted| && sorted[i] == Lookup(sorted, GetSortKey(y)).value;
      assert InKeyOrder(items, ascending)[i] == sorted[i].record;
    }
  }

  lemma InKeyOrderAre(items: seq<ResultItem>, ascending: bool)
    ensures var sorted := SortDistinct(Keyed(items, GetSortKey), ascending);
            |InKeyOrder(items, ascending)| == |sorted|
            && forall i :: 0 <= i < |sorted| ==> InKeyOrder(items, ascending)[i] == sorted[i].record
  {
    hide SortDistinct;
  }

  lemma SortedIsKeyed(items: seq<ResultItem>, ascending: bool, i: nat)
    requires i < |SortDistinct(Keyed(items, GetSortKey), ascending)|
    ensures var r := SortDistinct(Keyed(items, GetSortKey), ascending)[i];
            r.record in items && r.key == GetSortKey(r.record)
  {
    hide GetSortKey, Before, SortDistinct;
    var keyed := Keyed(items, GetSortKey);
    var sorted := SortDistinct(keyed, ascending);
    SortDistinctSorts(keyed, ascending);
    LookupSorted(sorted, i, ascending);
    LookupFound(keyed, sorted[i].key);
    var k :| 0 <= k < |keyed| && keyed[k] == sorted[i];
    assert items[k] in items;
  }

  method ReduceBottomChainDirResult(searchResults: seq<ResultItem>, maxBufferSize: nat)
    returns (reader: seq<ResultItem>)
    ensures reader == BottomChain(InKeyOrder(searchResults, false), "")
  {
    hide GetSortKey;
    var sortedFile := SortContentReaderByCalculatedKey(searchResults, GetSortKey, maxBufferSize, false);
    reader := FilterBottomChainResults(sortedFile);
  }

  lemma {:induction false} NamedDecrease(items: seq<ResultItem>)
    requires KeysDecrease(items)
    ensures KeysDecrease(Named(items))
    ensures forall x :: x in Named(items) ==> x in items
  {
    hide GetSortKey, Less, Named;
    if items == [] {
      NothingNamed();
    } else {
      NamedDecrease(items[1..]);
      NamedCons(items);
      var rest := Named(items[1..]);
      forall j | 0 <= j < |rest|
        ensures Less(GetSortKey(rest[j]), GetSortKey(items[0]))
      {
        assert rest[j] in rest;
        var k :| 0 <= k < |items[1..]| && items[1..][k] == rest[j];
        assert items[k + 1] == rest[j];
      }
    }
  }

  lemma NothingNamed()
    ensures Named([]) == []
  {
  }

  lemma NamedCons(items: seq<ResultItem>)
    requires items != []
    ensures Named(items) == (if items[0].name != "." then [items[0]] else []) + Named(items[1..])
  {
    assert items == [items[0]] + items[1..];
  }

  /** The reduction of search results keeps exactly the items that no other listed item lies beneath, if nothing is
      listed beneath a file. */
  lemma ReducedToBottom(items: seq<ResultItem>, x: ResultItem)
    requires var listed := Named(InKeyOrder(items, false)); FilesAreLeaves(listed) && x in listed
    ensures x in BottomChain(InKeyOrder(items, false), "") <==> Bottom(x, Named(InKeyOrder(items, false)))
  {
    hide GetSortKey, Less, InKeyOrder, Named, BottomChain, FilesAreLeaves, Bottom;
    var sorted := InKeyOrder(items, false);
    InKeyOrderFacts(items, false);
    forall i, j | 0 <= i < j < |sorted|
      ensures Less(GetSortKey(sorted[j]), GetSortKey(sorted[i]))
    {
      assert Before(GetSortKey(sorted[i]), GetSortKey(sorted[j]), false);
    }
    NamedDecrease(sorted);
    BottomChainExact(sorted, x);
  }
}
