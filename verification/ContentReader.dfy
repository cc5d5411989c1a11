/** Merging sorted buffers without duplicates, and the external sort (utils/io/content/contentreader.go). */
module ContentReader {
  import opened Sequences
  import opened Wrappers
  import opened StringOrder
  import opened SortedRecords
  import opened SortBuffers
  import opened ReaderHeads

  lemma {:induction false} LookupAllFinds<R>(p: seq<seq<SortRecord<R>>>, s: nat)
    requires s < |p| && p[s] != []
    ensures LookupAll(p, p[s][0].key).Some?
  {
    if s > 0 {
      LookupAllFinds(p[1..], s - 1);
    }
  }

  lemma {:induction false} LookupAllMisses<R>(p: seq<seq<SortRecord<R>>>, key: string)
    requires forall i, j :: 0 <= i < |p| && 0 <= j < |p[i]| ==> p[i][j].key != key
    ensures LookupAll(p, key).None?
  {
    if p != [] {
      LookupFound(p[0], key);
      assert forall j :: 0 <= j < |p[0]| ==> p[0][j].key != key;
      LookupAllMisses(p[1..], key);
    }
  }

  /** Looking a key up, source `i` apart. */
  lemma LookupAround<R>(p: seq<seq<SortRecord<R>>>, i: nat, s: seq<SortRecord<R>>, key: string)
    requires i < |p|
    ensures LookupAll(p[i := s], key)
            == OrElse(LookupAll(p[..i], key), OrElse(Lookup(s, key), LookupAll(p[i + 1..], key)))
  {
    var q := p[i := s];
    assert q == p[..i] + ([s] + p[i + 1..]);
    LookupAllConcat(p[..i], [s] + p[i + 1..], key);
    assert ([s] + p[i + 1..])[1..] == p[i + 1..];
  }

  /** Dropping the head of a later source whose key an earlier source still holds changes no lookup. */
  lemma DropDuplicate<R>(p: seq<seq<SortRecord<R>>>, s: nat, i: nat)
    requires s < i < |p| && p[s] != [] && p[i] != [] && p[s][0].key == p[i][0].key
    ensures forall key :: LookupAll(p[i := p[i][1..]], key) == LookupAll(p, key)
  {
    LookupAllFinds(p[..i], s);
    assert p[i := p[i]] == p;
    forall key
      ensures LookupAll(p[i := p[i][1..]], key) == LookupAll(p, key)
    {
      LookupAround(p, i, p[i], key);
      LookupAround(p, i, p[i][1..], key);
    }
  }

  /** Among the first `n` sources, `s` holds the least head, and no other record has its key. */
  ghost predicate LeastAmong<R>(p: seq<seq<SortRecord<R>>>, s: nat, n: nat, ascending: bool) {
    s < n <= |p| && p[s] != []
    && forall i, j :: 0 <= i < n && 0 <= j < |p[i]| && !(i == s && j == 0) ==>
         Before(p[s][0].key, p[i][j].key, ascending)
  }

  lemma CandidateStays<R>(p: seq<seq<SortRecord<R>>>, s: nat, i: nat, ascending: bool)
    requires LeastAmong(p, s, i, ascending) && i < |p| && StrictlySorted(p[i], ascending)
    requires p[i] != [] ==> Before(p[s][0].key, p[i][0].key, ascending)
    ensures LeastAmong(p, s, i + 1, ascending)
  {
    hide Before;
    BeforeOrder(ascending);
  }

  lemma CandidateChanges<R>(p: seq<seq<SortRecord<R>>>, s: nat, i: nat, ascending: bool)
    requires LeastAmong(p, s, i, ascending) && i < |p| && StrictlySorted(p[i], ascending)
    requires p[i] != [] && Before(p[i][0].key, p[s][0].key, ascending)
    ensures LeastAmong(p, i, i + 1, ascending)
  {
    hide Before;
    BeforeOrder(ascending);
    forall k, j | 0 <= k < i && 0 <= j < |p[k]|
      ensures Before(p[i][0].key, p[k][j].key, ascending)
    {
      if !(k == s && j == 0) {
        assert Before(p[s][0].key, p[k][j].key, ascending);
      }
    }
  }

  lemma FirstCandidate<R>(p: seq<seq<SortRecord<R>>>, i: nat, ascending: bool)
    requires i < |p| && StrictlySorted(p[i], ascending) && p[i] != []
    requires forall k :: 0 <= k < i ==> p[k] == []
    ensures LeastAmong(p, i, i + 1, ascending)
  {
  }

  lemma KeyOrder(candidate: string, current: string, ascending: bool)
    requires candidate != current
    ensures if CompareStrings(candidate, current, ascending) then Before(current, candidate, ascending)
            else Before(candidate, current, ascending)
  {
    LessTotal(candidate, current);
  }

  lemma DuplicateDropped<R>(p: seq<seq<SortRecord<R>>>, s: nat, i: nat, ascending: bool)
    requires LeastAmong(p, s, i, ascending) && i < |p| && StrictlySorted(p[i], ascending)
    requires p[i] != [] && p[i][0].key == p[s][0].key
    ensures LeastAmong(p[i := p[i][1..]], s, i + 1, ascending)
    ensures StrictlySorted(p[i][1..], ascending)
    ensures Size(p[i := p[i][1..]]) <= Size(p)
    ensures forall key :: LookupAll(p[i := p[i][1..]], key) == LookupAll(p, key)
  {
    hide Before, LookupAll, Size;
    DropDuplicate(p, s, i);
    SizeUpdate(p, i, p[i][1..]);
  }

  lemma PopLeast<R>(p: seq<seq<SortRecord<R>>>, s: nat, ascending: bool)
    requires LeastAmong(p, s, |p|, ascending)
    ensures LookupAll(p, p[s][0].key) == Some(p[s][0])
    ensures LookupAll(p[s := p[s][1..]], p[s][0].key).None?
    ensures forall key :: key != p[s][0].key ==> LookupAll(p[s := p[s][1..]], key) == LookupAll(p, key)
  {
    hide Before;
    BeforeOrder(ascending);
    var c := p[s][0].key;
    var q: seq<seq<SortRecord<R>>> := p[s := p[s][1..]];
    assert p[s := p[s]] == p;
    forall i, j | 0 <= i < |q| && 0 <= j < |q[i]|
      ensures q[i][j].key != c
    {
      if i == s {
        assert q[i][j] == p[i][j + 1];
      }
    }
    LookupAllMisses(q, c);
    LookupAllMisses(p[..s], c) by {
      assert forall i, j :: 0 <= i < s && 0 <= j < |p[i]| ==> p[..s][i][j] == q[i][j];
    }
    forall key
      ensures LookupAll(p, key) == if key == c then Some(p[s][0]) else LookupAll(q, key)
    {
      LookupAround(p, s, p[s], key);
      LookupAround(p, s, p[s][1..], key);
    }
  }

  /** The inner loop of mergeSortedReadersByCalculatedKey: refill the heads, drop a head whose key an earlier
      candidate already has, and pick the first least head. */
  method PickCandidate<R>(current: array<Option<SortRecord<R>>>, files: array<Option<seq<SortRecord<R>>>>,
                          ascending: bool)
    returns (candidateToWrite: Option<SortRecord<R>>, smallestIndex: nat)
    requires current.Length == files.Length && (current as object) != (files as object)
    requires forall s :: s in Pending(current, files) ==> StrictlySorted(s, ascending)
    modifies current, files
    ensures forall s :: s in Pending(current, files) ==> StrictlySorted(s, ascending)
    ensures forall key :: LookupAll(Pending(current, files), key) == old(LookupAll(Pending(current, files), key))
    ensures Size(Pending(current, files)) <= old(Size(Pending(current, files)))
    ensures forall i, r :: 0 <= i < current.Length && r in Pending(current, files)[i] ==>
              r in old(Pending(current, files))[i]
    ensures candidateToWrite.None? ==> forall s :: s in Pending(current, files) ==> s == []
    ensures candidateToWrite.Some? ==> smallestIndex < current.Length && current[smallestIndex] == candidateToWrite
                                       && LeastAmong(Pending(current, files), smallestIndex, current.Length, ascending)
  {
    hide Before, LookupAll, Size, StrictlySorted, LeastAmong, Pending, PendingAt, CompareStrings;
    ghost var p0: seq<seq<SortRecord<R>>> := Pending(current, files);
    ghost var p := p0;
    candidateToWrite, smallestIndex := None, 0;
    var i := 0;
    while i < current.Length
      invariant 0 <= i <= current.Length
      invariant Pending(current, files) == p
      invariant forall s :: s in p ==> StrictlySorted(s, ascending)
      invariant forall key :: LookupAll(p, key) == LookupAll(p0, key)
      invariant Size(p) <= Size(p0)
      invariant forall k, r :: 0 <= k < |p| && r in p[k] ==> r in p0[k]
      invariant candidateToWrite.None? ==> forall k :: 0 <= k < i ==> p[k] == []
      invariant candidateToWrite.Some? ==> smallestIndex < i && current[smallestIndex] == candidateToWrite
                                           && p[smallestIndex] != [] && p[smallestIndex][0] == candidateToWrite.value
                                           && LeastAmong(p, smallestIndex, i, ascending)
    {
      assert p[i] in p;
      var ended := Refill(current, files, i);
      if ended {
        if candidateToWrite.Some? {
          CandidateStays(p, smallestIndex, i, ascending);
        }
        i := i + 1;
        continue;
      }
      if candidateToWrite.Some? && current[i].Some? && candidateToWrite.value.key == current[i].value.key {
        DuplicateDropped(p, smallestIndex, i, ascending);
        DropHead(current, files, i);
        p := p[i := p[i][1..]];
      } else {
        if candidateToWrite.Some? && current[i].Some? {
          KeyOrder(candidateToWrite.value.key, current[i].value.key, ascending);
        }
        if candidateToWrite.None? ||
           (current[i].Some? && CompareStrings(candidateToWrite.value.key, current[i].value.key, ascending)) {
          if candidateToWrite.Some? {
            CandidateChanges(p, smallestIndex, i, ascending);
          } else if current[i].Some? {
            FirstCandidate(p, i, ascending);
          }
          candidateToWrite, smallestIndex := current[i], i;
        } else {
          CandidateStays(p, smallestIndex, i, ascending);
        }
      }
      i := i + 1;
    }
  }

  /** Everything written comes before everything pending. */
  ghost predicate Ahead<R>(written: seq<SortRecord<R>>, p: seq<seq<SortRecord<R>>>, ascending: bool) {
    forall w, i, r :: w in written && 0 <= i < |p| && r in p[i] ==> Before(w.key, r.key, ascending)
  }

  /** Between them, written and pending records give every key its first record. */
  ghost predicate Conserves<R>(written: seq<SortRecord<R>>, p: seq<seq<SortRecord<R>>>,
                               sources: seq<seq<SortRecord<R>>>)
  {
    forall key :: OrElse(Lookup(written, key), LookupAll(p, key)) == LookupAll(sources, key)
  }

  lemma WriteLeast<R>(written: seq<SortRecord<R>>, p: seq<seq<SortRecord<R>>>, s: nat,
                      sources: seq<seq<SortRecord<R>>>, ascending: bool)
    requires LeastAmong(p, s, |p|, ascending) && Ahead(written, p, ascending) && Conserves(written, p, sources)
    requires StrictlySorted(written, ascending)
    ensures var w, q := written + [p[s][0]], p[s := p[s][1..]];
            StrictlySorted(w, ascending) && Ahead(w, q, ascending) && Conserves(w, q, sources) && Size(q) < Size(p)
  {
    hide Before, Size, Ahead, Conserves, StrictlySorted;
    SizeUpdate(p, s, p[s][1..]);
    WriteSorted(written, p, s, ascending);
    WriteAhead(written, p, s, ascending);
    WriteConserves(written, p, s, sources, ascending);
  }

  lemma WriteSorted<R>(written: seq<SortRecord<R>>, p: seq<seq<SortRecord<R>>>, s: nat, ascending: bool)
    requires s < |p| && p[s] != [] && Ahead(written, p, ascending) && StrictlySorted(written, ascending)
    ensures StrictlySorted(written + [p[s][0]], ascending)
  {
    hide Before;
    assert p[s][0] in p[s];
  }

  lemma WriteAhead<R>(written: seq<SortRecord<R>>, p: seq<seq<SortRecord<R>>>, s: nat, ascending: bool)
    requires s < |p| && p[s] != []
    requires LeastAmong(p, s, |p|, ascending) && Ahead(written, p, ascending)
    ensures Ahead(written + [p[s][0]], p[s := p[s][1..]], ascending)
  {
    hide Before, LeastAmong;
    var c := p[s][0];
    var q: seq<seq<SortRecord<R>>> := p[s := p[s][1..]];
    LeastAhead(p, s, ascending);
    assert c in [c];
    forall w, i, r | w in written + [c] && 0 <= i < |q| && r in q[i]
      ensures Before(w.key, r.key, ascending)
    {
      assert r in p[i];
    }
  }

  lemma WriteConserves<R>(written: seq<SortRecord<R>>, p: seq<seq<SortRecord<R>>>, s: nat,
                          sources: seq<seq<SortRecord<R>>>, ascending: bool)
    requires s < |p| && p[s] != []
    requires LeastAmong(p, s, |p|, ascending) && Ahead(written, p, ascending) && Conserves(written, p, sources)
    ensures Conserves(written + [p[s][0]], p[s := p[s][1..]], sources)
  {
    hide Before, Lookup, LookupAll, LeastAmong, Ahead;
    var c := p[s][0];
    PopLeast(p, s, ascending);
    NotWritten(written, p, s, ascending);
    forall key
      ensures OrElse(Lookup(written + [c], key), LookupAll(p[s := p[s][1..]], key)) == LookupAll(sources, key)
    {
      LookupConcat(written, [c], key);
      LookupOne(c, key);
      assert OrElse(Lookup(written, key), LookupAll(p, key)) == LookupAll(sources, key);
    }
  }

  lemma LookupOne<R>(c: SortRecord<R>, key: string)
    ensures Lookup([c], key) == if key == c.key then Some(c) else None
  {
    assert [c][1..] == [];
  }

  lemma NotWritten<R>(written: seq<SortRecord<R>>, p: seq<seq<SortRecord<R>>>, s: nat, ascending: bool)
    requires s < |p| && p[s] != [] && Ahead(written, p, ascending)
    ensures Lookup(written, p[s][0].key).None?
  {
    hide Lookup, Before;
    var c := p[s][0];
    assert c in p[s];
    LookupFound(written, c.key);
    NeverBeforeItself(c.key, ascending);
  }

  lemma NeverBeforeItself(key: string, ascending: bool)
    ensures !Before(key, key, ascending)
  {
    LessTotal(key, key);
  }

  lemma LeastAhead<R>(p: seq<seq<SortRecord<R>>>, s: nat, ascending: bool)
    requires LeastAmong(p, s, |p|, ascending)
    ensures Ahead([p[s][0]], p[s := p[s][1..]], ascending)
  {
    hide Before;
    var q: seq<seq<SortRecord<R>>> := p[s := p[s][1..]];
    forall i, r | 0 <= i < |q| && r in q[i]
      ensures Before(p[s][0].key, r.key, ascending)
    {
      var j :| 0 <= j < |q[i]| && q[i][j] == r;
      assert i == s ==> q[i][j] == p[i][j + 1];
      assert i != s ==> q[i][j] == p[i][j];
    }
  }

  /** mergeSortedReadersByCalculatedKey: merging strictly sorted sources gives the simple sort of all their records. */
  method MergeSortedReadersByCalculatedKey<R>(sortedReaders: seq<seq<SortRecord<R>>>, ascending: bool)
    returns (writer: seq<R>)
    requires forall s :: s in sortedReaders ==> StrictlySorted(s, ascending)
    ensures writer == Records(SortDistinct(Flat(sortedReaders), ascending))
  {
    hide Before, LookupAll, Size, StrictlySorted, LeastAmong, Ahead, Conserves;
    writer := [];
    ghost var written: seq<SortRecord<R>> := [];
    var n := |sortedReaders|;
    var current := new Option<SortRecord<R>>[n](_ => None);
    var files := new Option<seq<SortRecord<R>>>[n](i requires 0 <= i < n => Some(sortedReaders[i]));
    assert Pending(current, files) == sortedReaders;
    StartMerge(sortedReaders, ascending);
    while true
      invariant forall s :: s in Pending(current, files) ==> StrictlySorted(s, ascending)
      invariant StrictlySorted(written, ascending) && Ahead(written, Pending(current, files), ascending)
      invariant Conserves(written, Pending(current, files), sortedReaders)
      invariant writer == Records(written)
      decreases Size(Pending(current, files))
    {
      ghost var before := Pending(current, files);
      var candidateToWrite, smallestIndex := PickCandidate(current, files, ascending);
      ghost var p := Pending(current, files);
      StillAhead(written, before, p, sortedReaders, ascending);
      if candidateToWrite.None? {
        break;
      }
      WriteLeast(written, p, smallestIndex, sortedReaders, ascending);
      DropHead(current, files, smallestIndex);
      StillSorted(p, smallestIndex, ascending);
      written := written + [candidateToWrite.value];
      writer := writer + [candidateToWrite.value.record];
    }
    FinishMerge(written, Pending(current, files), sortedReaders, ascending);
  }

  lemma StartMerge<R>(sources: seq<seq<SortRecord<R>>>, ascending: bool)
    ensures StrictlySorted<R>([], ascending) && Ahead([], sources, ascending) && Conserves([], sources, sources)
  {
  }

  lemma StillAhead<R>(written: seq<SortRecord<R>>, p: seq<seq<SortRecord<R>>>, q: seq<seq<SortRecord<R>>>,
                      sources: seq<seq<SortRecord<R>>>, ascending: bool)
    requires |p| == |q| && forall i, r :: 0 <= i < |p| && r in q[i] ==> r in p[i]
    requires forall key :: LookupAll(q, key) == LookupAll(p, key)
    requires Ahead(written, p, ascending) && Conserves(written, p, sources)
    ensures Ahead(written, q, ascending) && Conserves(written, q, sources)
  {
  }

  lemma StillSorted<R>(p: seq<seq<SortRecord<R>>>, i: nat, ascending: bool)
    requires i < |p| && p[i] != [] && forall s :: s in p ==> StrictlySorted(s, ascending)
    ensures forall s :: s in p[i := p[i][1..]] ==> StrictlySorted(s, ascending)
  {
    assert p[i] in p;
  }

  lemma FinishMerge<R>(written: seq<SortRecord<R>>, p: seq<seq<SortRecord<R>>>, sources: seq<seq<SortRecord<R>>>,
                       ascending: bool)
    requires StrictlySorted(written, ascending) && Conserves(written, p, sources)
    requires forall s :: s in p ==> s == []
    ensures written == SortDistinct(Flat(sources), ascending)
  {
    var sorted := SortDistinct(Flat(sources), ascending);
    SortDistinctSorts(Flat(sources), ascending);
    forall key
      ensures Lookup(written, key) == Lookup(sorted, key)
    {
      assert forall i :: 0 <= i < |p| ==> p[i] in p;
      LookupAllMisses(p, key);
      LookupFlat(sources, key);
      assert OrElse(Lookup(written, key), LookupAll(p, key)) == LookupAll(sources, key);
    }
    SortedUnique(written, sorted, ascending);
  }

  /** SortContentReaderByCalculatedKey: whatever the buffer size, the external sort gives exactly the simple sort. */
  method SortContentReaderByCalculatedKey<R>(reader: seq<R>, getKey: R -> string, maxBufferSize: nat, ascending: bool)
    returns (sorted: seq<R>)
    ensures sorted == Records(SortDistinct(Keyed(reader, getKey), ascending))
  {
    var sortedReaders := SplitToSortedBuffers(reader, getKey, maxBufferSize, ascending);
    SplitRefines(sortedReaders, Keyed(reader, getKey), ascending);
    sorted := MergeSortedReadersByCalculatedKey(sortedReaders, ascending);
  }

  lemma SplitRefines<R>(sources: seq<seq<SortRecord<R>>>, rs: seq<SortRecord<R>>, ascending: bool)
    requires forall key :: LookupAll(sources, key) == Lookup(rs, key)
    ensures SortDistinct(Flat(sources), ascending) == SortDistinct(rs, ascending)
  {
    SortDistinctSorts(Flat(sources), ascending);
    SortDistinctSorts(rs, ascending);
    forall key
      ensures Lookup(SortDistinct(Flat(sources), ascending), key) == Lookup(SortDistinct(rs, ascending), key)
    {
      LookupFlat(sources, key);
    }
    SortedUnique(SortDistinct(Flat(sources), ascending), SortDistinct(rs, ascending), ascending);
  }
}
