/** Records with sort keys, and the simple sort that the external sort of utils/io/content/contentreader.go refines. */
module SortedRecords {
  import opened Sequences
  import opened Wrappers
  import opened StringOrder

  datatype SortRecord<R> = SortRecord(key: string, record: R)

  // ----- Specification -----

  predicate StrictlySorted<R>(rs: seq<SortRecord<R>>, ascending: bool) {
    forall i, j :: 0 <= i < j < |rs| ==> Before(rs[i].key, rs[j].key, ascending)
  }

  /** The first record with the given key. */
  function Lookup<R>(rs: seq<SortRecord<R>>, key: string): Option<SortRecord<R>> {
    if rs == [] then None
    else if rs[0].key == key then Some(rs[0])
    else Lookup(rs[1..], key)
  }

  function OrElse<T>(a: Option<T>, b: Option<T>): Option<T> {
    if a.Some? then a else b
  }

  /** The first record with the given key, searching the sources in order. */
  function LookupAll<R>(sources: seq<seq<SortRecord<R>>>, key: string): Option<SortRecord<R>> {
    if sources == [] then None else OrElse(Lookup(sources[0], key), LookupAll(sources[1..], key))
  }

  function Keyed<R>(records: seq<R>, getKey: R -> string): seq<SortRecord<R>> {
    seq(|records|, i requires 0 <= i < |records| => SortRecord(getKey(records[i]), records[i]))
  }

  function Records<R>(rs: seq<SortRecord<R>>): seq<R> {
    seq(|rs|, i requires 0 <= i < |rs| => rs[i].record)
  }

  /** The simple sort that the external one refines: insertion into a sorted list, keeping the first record of each
      key. */
  function SortDistinct<R>(rs: seq<SortRecord<R>>, ascending: bool): seq<SortRecord<R>> {
    if rs == [] then []
    else InsertDistinct(rs[|rs| - 1], SortDistinct(rs[..|rs| - 1], ascending), ascending)
  }

  function InsertDistinct<R>(r: SortRecord<R>, sorted: seq<SortRecord<R>>, ascending: bool): seq<SortRecord<R>> {
    if sorted == [] then [r]
    else if sorted[0].key == r.key then sorted
    else if Before(sorted[0].key, r.key, ascending) then [sorted[0]] + InsertDistinct(r, sorted[1..], ascending)
    else [r] + sorted
  }

  lemma {:induction false} LookupFound<R>(rs: seq<SortRecord<R>>, key: string)
    ensures Lookup(rs, key).Some? ==> Lookup(rs, key).value in rs && Lookup(rs, key).value.key == key
    ensures Lookup(rs, key).None? ==> forall i :: 0 <= i < |rs| ==> rs[i].key != key
  {
    if rs != [] && rs[0].key != key {
      LookupFound(rs[1..], key);
    }
  }

  lemma {:induction false} LookupConcat<R>(a: seq<SortRecord<R>>, b: seq<SortRecord<R>>, key: string)
    ensures Lookup(a + b, key) == OrElse(Lookup(a, key), Lookup(b, key))
  {
    if a == [] {
      assert a + b == b;
    } else {
      assert (a + b)[1..] == a[1..] + b;
      LookupConcat(a[1..], b, key);
    }
  }

  lemma {:induction false} LookupAllConcat<R>(a: seq<seq<SortRecord<R>>>, b: seq<seq<SortRecord<R>>>, key: string)
    ensures LookupAll(a + b, key) == OrElse(LookupAll(a, key), LookupAll(b, key))
  {
    if a == [] {
      assert a + b == b;
    } else {
      assert (a + b)[1..] == a[1..] + b;
      LookupAllConcat(a[1..], b, key);
    }
  }

  /** A strictly sorted list is determined by its lookups. */
  lemma {:induction false} SortedUnique<R>(a: seq<SortRecord<R>>, b: seq<SortRecord<R>>, ascending: bool)
    requires StrictlySorted(a, ascending) && StrictlySorted(b, ascending)
    requires forall key :: Lookup(a, key) == Lookup(b, key)
    ensures a == b
  {
    hide Before;
    if a == [] {
      assert b != [] ==> Lookup(a, b[0].key) == Lookup(b, b[0].key);
    } else {
      assert Lookup(a, a[0].key) == Lookup(b, a[0].key) == Some(a[0]);
      LookupFound(b, a[0].key);
      assert Lookup(b, b[0].key) == Lookup(a, b[0].key) == Some(b[0]);
      LookupFound(a, b[0].key);
      BeforeOrder(ascending);
      assert a[0] == b[0];
      forall key
        ensures Lookup(a[1..], key) == Lookup(b[1..], key)
      {
        LookupFound(a[1..], key);
        LookupFound(b[1..], key);
        assert Lookup(a, key) == Lookup(b, key);
      }
      SortedUnique(a[1..], b[1..], ascending);
      assert a == [a[0]] + a[1..] && b == [b[0]] + b[1..];
    }
  }

  lemma {:induction false} InsertDistinctMembers<R>(r: SortRecord<R>, sorted: seq<SortRecord<R>>, ascending: bool,
                                                    x: SortRecord<R>)
    requires x in InsertDistinct(r, sorted, ascending)
    ensures x in sorted || x == r
  {
    hide Before;
    if sorted != [] && x != sorted[0] && Before(sorted[0].key, r.key, ascending) && sorted[0].key != r.key {
      InsertDistinctMembers(r, sorted[1..], ascending, x);
    }
  }

  lemma {:induction false} InsertDistinctSorted<R>(r: SortRecord<R>, sorted: seq<SortRecord<R>>, ascending: bool)
    requires StrictlySorted(sorted, ascending)
    ensures StrictlySorted(InsertDistinct(r, sorted, ascending), ascending)
  {
    hide Before;
    BeforeOrder(ascending);
    if sorted != [] && sorted[0].key != r.key && Before(sorted[0].key, r.key, ascending) {
      var rest := InsertDistinct(r, sorted[1..], ascending);
      InsertDistinctSorted(r, sorted[1..], ascending);
      forall i | 0 <= i < |rest|
        ensures Before(sorted[0].key, rest[i].key, ascending)
      {
        InsertDistinctMembers(r, sorted[1..], ascending, rest[i]);
      }
    }
  }

  lemma {:induction false} InsertDistinctLookup<R>(r: SortRecord<R>, sorted: seq<SortRecord<R>>, ascending: bool,
                                                   key: string)
    requires StrictlySorted(sorted, ascending)
    ensures Lookup(InsertDistinct(r, sorted, ascending), key) == OrElse(Lookup(sorted, key), Lookup([r], key))
  {
    hide Before;
    assert [r][1..] == [];
    if sorted != [] && sorted[0].key != r.key {
      var out := InsertDistinct(r, sorted, ascending);
      if Before(sorted[0].key, r.key, ascending) {
        InsertDistinctLookup(r, sorted[1..], ascending, key);
        assert out[1..] == InsertDistinct(r, sorted[1..], ascending);
      } else {
        assert out[1..] == sorted;
        LookupFound(sorted, key);
        BeforeOrder(ascending);
      }
    }
  }

  /** What the simple sort returns: strictly sorted, and for every key the record that comes first in the input. */
  lemma {:induction false} SortDistinctSorts<R>(rs: seq<SortRecord<R>>, ascending: bool)
    ensures StrictlySorted(SortDistinct(rs, ascending), ascending)
    ensures forall key :: Lookup(SortDistinct(rs, ascending), key) == Lookup(rs, key)
  {
    if rs != [] {
      var init, last := rs[..|rs| - 1], rs[|rs| - 1];
      SortDistinctSorts(init, ascending);
      InsertDistinctSorted(last, SortDistinct(init, ascending), ascending);
      forall key
        ensures Lookup(SortDistinct(rs, ascending), key) == Lookup(rs, key)
      {
        assert rs == init + [last];
        InsertDistinctLookup(last, SortDistinct(init, ascending), ascending, key);
        LookupConcat(init, [last], key);
      }
    }
  }

  /** Ascending means by increasing keys, descending by decreasing ones. */
  lemma SortDistinctDirection<R>(rs: seq<SortRecord<R>>)
    ensures var up := SortDistinct(rs, true); forall i, j :: 0 <= i < j < |up| ==> Less(up[i].key, up[j].key)
    ensures var down := SortDistinct(rs, false); forall i, j :: 0 <= i < j < |down| ==> Less(down[j].key, down[i].key)
  {
    hide Less, SortDistinct;
    SortDistinctSorts(rs, true);
    SortDistinctSorts(rs, false);
    var up, down := SortDistinct(rs, true), SortDistinct(rs, false);
    forall i, j | 0 <= i < j < |up|
      ensures Less(up[i].key, up[j].key)
    {
      assert Before(up[i].key, up[j].key, true);
    }
    forall i, j | 0 <= i < j < |down|
      ensures Less(down[j].key, down[i].key)
    {
      assert Before(down[i].key, down[j].key, false);
    }
  }

  lemma {:induction false} LookupFlat<R>(sources: seq<seq<SortRecord<R>>>, key: string)
    ensures Lookup(Flat(sources), key) == LookupAll(sources, key)
  {
    if sources != [] {
      LookupFlat(sources[1..], key);
      LookupConcat(sources[0], Flat(sources[1..]), key);
    }
  }
}
