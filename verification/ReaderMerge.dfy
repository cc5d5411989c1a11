/** Merging sorted readers, duplicates included (utils/io/content/contentreader.go). */
module ReaderMerge {
  import opened Sequences
  import opened Wrappers
  import opened StringOrder
  import opened ReaderHeads

  /** The source with the first least head. */
  function MinHead<R>(p: seq<seq<R>>, key: R -> string, ascending: bool): (s: Option<nat>)
    ensures s.Some? ==> s.value < |p| && p[s.value] != []
  {
    if p == [] then None
    else
      var i := |p| - 1;
      var best := MinHead(p[..i], key, ascending);
      if p[i] == [] then best
      else if best.None? || CompareStrings(key(p[best.value][0]), key(p[i][0]), ascending) then Some(i)
      else best
  }

  /** What a merge writes: the least head again and again. */
  ghost function MergeHeads<R>(p: seq<seq<R>>, key: R -> string, ascending: bool): seq<R>
    decreases Size(p)
  {
    match MinHead(p, key, ascending)
    case None => []
    case Some(s) =>
      SizeUpdate(p, s, p[s][1..]);
      [p[s][0]] + MergeHeads(p[s := p[s][1..]], key, ascending)
  }

  lemma NoHead<R>(key: R -> string, ascending: bool)
    ensures MinHead([], key, ascending) == None
  {
  }

  lemma MinHeadStep<R>(p: seq<seq<R>>, key: R -> string, ascending: bool, i: nat)
    requires i < |p|
    ensures MinHead(p[..i + 1], key, ascending) == (
              var best := MinHead(p[..i], key, ascending);
              if p[i] == [] then best
              else if best.None? || CompareStrings(key(p[best.value][0]), key(p[i][0]), ascending) then Some(i)
              else best)
  {
    hide CompareStrings;
    assert p[..i + 1][..i] == p[..i];
  }

  method PickHead<R>(current: array<Option<R>>, files: array<Option<seq<R>>>, key: R -> string, ascending: bool)
    returns (candidateToWrite: Option<R>, smallestIndex: nat)
    requires current.Length == files.Length && (current as object) != (files as object)
    modifies current, files
    ensures Pending(current, files) == old(Pending(current, files))
    ensures MinHead(Pending(current, files), key, ascending)
         == if candidateToWrite.Some? then Some(smallestIndex) else None
    ensures candidateToWrite.Some? ==> current[smallestIndex] == candidateToWrite
  {
    hide Pending, PendingAt, CompareStrings, MinHead;
    NoHead(key, ascending);
    ghost var p := Pending(current, files);
    candidateToWrite, smallestIndex := None, 0;
    var i := 0;
    while i < current.Length
      invariant 0 <= i <= current.Length
      invariant Pending(current, files) == p
      invariant MinHead(p[..i], key, ascending) == if candidateToWrite.Some? then Some(smallestIndex) else None
      invariant candidateToWrite.Some? ==> smallestIndex < i && current[smallestIndex] == candidateToWrite
                                           && p[smallestIndex] != [] && p[smallestIndex][0] == candidateToWrite.value
    {
      MinHeadStep(p, key, ascending, i);
      var ended := Refill(current, files, i);
      if !ended &&
         (candidateToWrite.None? ||
          (current[i].Some? && CompareStrings(key(candidateToWrite.value), key(current[i].value), ascending))) {
        candidateToWrite, smallestIndex := current[i], i;
      }
      i := i + 1;
    }
    assert p[..i] == p;
  }

  /** One record of the merge. */
  lemma MergeStep<R>(p: seq<seq<R>>, key: R -> string, ascending: bool)
    ensures var s := MinHead(p, key, ascending);
            if s.None? then MergeHeads(p, key, ascending) == []
            else
              var q: seq<seq<R>> := p[s.value := p[s.value][1..]];
              MergeHeads(p, key, ascending) == [p[s.value][0]] + MergeHeads(q, key, ascending) && Size(q) < Size(p)
  {
    hide MinHead;
    var s := MinHead(p, key, ascending);
    if s.Some? {
      SizeUpdate(p, s.value, p[s.value][1..]);
    }
  }

  /** MergeSortedReaders. */
  method MergeSortedReaders<R>(sortedReaders: seq<seq<R>>, key: R -> string, ascending: bool) returns (writer: seq<R>)
    ensures writer == MergeHeads(sortedReaders, key, ascending)
  {
    hide Pending, Size, MinHead, MergeHeads;
    writer := [];
    var n := |sortedReaders|;
    var current := new Option<R>[n](_ => None);
    var files := new Option<seq<R>>[n](i requires 0 <= i < n => Some(sortedReaders[i]));
    assert Pending(current, files) == sortedReaders;
    while true
      invariant writer + MergeHeads(Pending(current, files), key, ascending)
                == MergeHeads(sortedReaders, key, ascending)
      decreases Size(Pending(current, files))
    {
      var candidateToWrite, smallestIndex := PickHead(current, files, key, ascending);
      ghost var p: seq<seq<R>> := Pending(current, files);
      MergeStep(p, key, ascending);
      if candidateToWrite.None? {
        break;
      }
      DropHead(current, files, smallestIndex);
      writer := writer + [candidateToWrite.value];
    }
  }

  ghost predicate SortedBy<R>(rs: seq<R>, key: R -> string, ascending: bool) {
    forall i, j :: 0 <= i < j < |rs| ==> !Before(key(rs[j]), key(rs[i]), ascending)
  }

  lemma {:induction false} MinHeadLeast<R>(p: seq<seq<R>>, key: R -> string, ascending: bool)
    ensures MinHead(p, key, ascending).None? ==> forall s :: s in p ==> s == []
    ensures MinHead(p, key, ascending).Some? ==>
              var m := MinHead(p, key, ascending).value;
              forall i :: 0 <= i < |p| && p[i] != [] ==> !Before(key(p[i][0]), key(p[m][0]), ascending)
  {
    if p != [] {
      var n := |p| - 1;
      MinHeadLeast(p[..n], key, ascending);
      assert p == p[..n] + [p[n]];
      var best, m := MinHead(p[..n], key, ascending), MinHead(p, key, ascending);
      forall i | m.Some? && 0 <= i < |p| && p[i] != []
        ensures !Before(key(p[i][0]), key(p[m.value][0]), ascending)
      {
        if i < n {
          assert p[..n][i] == p[i] && p[i] in p[..n];
          BeforeOrder(ascending);
          if m.value == n {
            NotBeforeTransitive(key(p[n][0]), key(p[best.value][0]), key(p[i][0]), ascending);
          }
        } else {
          LessTotal(key(p[n][0]), key(p[n][0]));
        }
      }
    }
  }

  /** A merge writes exactly the records of its sources. */
  lemma {:induction false} MergePermutes<R>(p: seq<seq<R>>, key: R -> string, ascending: bool)
    ensures multiset(MergeHeads(p, key, ascending)) == multiset(Flat(p))
    decreases Size(p)
  {
    MinHeadLeast(p, key, ascending);
    var m := MinHead(p, key, ascending);
    if m.None? {
      FlatEmpty(p);
    } else {
      var s := m.value;
      SizeUpdate(p, s, p[s][1..]);
      MergePermutes(p[s := p[s][1..]], key, ascending);
      FlatPop(p, s);
    }
  }

  lemma {:induction false} FlatEmpty<T>(p: seq<seq<T>>)
    requires forall s :: s in p ==> s == []
    ensures Flat(p) == []
  {
    if p != [] {
      assert p[0] in p && forall s :: s in p[1..] ==> s in p;
      FlatEmpty(p[1..]);
    }
  }

  lemma {:induction false} FlatPop<T>(p: seq<seq<T>>, s: nat)
    requires s < |p| && p[s] != []
    ensures multiset(Flat(p)) == multiset{p[s][0]} + multiset(Flat(p[s := p[s][1..]]))
  {
    var q := p[s := p[s][1..]];
    if s == 0 {
      assert q[1..] == p[1..];
      assert p[0] == [p[0][0]] + p[0][1..];
    } else {
      assert q[1..] == p[1..][s - 1 := p[1..][s - 1][1..]];
      FlatPop(p[1..], s - 1);
    }
  }

  lemma MergeMember<R>(p: seq<seq<R>>, key: R -> string, ascending: bool, x: R)
    ensures x in MergeHeads(p, key, ascending) <==> exists i :: 0 <= i < |p| && x in p[i]
  {
    MergePermutes(p, key, ascending);
    FlatMember(p, x);
    assert x in multiset(MergeHeads(p, key, ascending)) <==> x in multiset(Flat(p));
  }

  /** Merging sorted sources gives a sorted result. */
  lemma {:induction false} MergeSorts<R>(p: seq<seq<R>>, key: R -> string, ascending: bool)
    requires forall i :: 0 <= i < |p| ==> SortedBy(p[i], key, ascending)
    ensures SortedBy(MergeHeads(p, key, ascending), key, ascending)
    decreases Size(p)
  {
    hide Before;
    MinHeadLeast(p, key, ascending);
    var m := MinHead(p, key, ascending);
    if m.Some? {
      var s := m.value;
      var q: seq<seq<R>> := p[s := p[s][1..]];
      SizeUpdate(p, s, p[s][1..]);
      MergeSorts(q, key, ascending);
      var rest := MergeHeads(q, key, ascending);
      forall j | 0 <= j < |rest|
        ensures !Before(key(rest[j]), key(p[s][0]), ascending)
      {
        MergeMember(q, key, ascending, rest[j]);
        var i :| 0 <= i < |q| && rest[j] in q[i];
        NotBeforeHead(p, s, key, ascending, i, rest[j]);
      }
    }
  }

  /** What is left of a source does not come before the least head. */
  lemma NotBeforeHead<R>(p: seq<seq<R>>, s: nat, key: R -> string, ascending: bool, i: nat, x: R)
    requires s < |p| && p[s] != [] && i < |p| && SortedBy(p[i], key, ascending) && x in p[i]
    requires !Before(key(p[i][0]), key(p[s][0]), ascending)
    ensures !Before(key(x), key(p[s][0]), ascending)
  {
    hide Before;
    var k :| 0 <= k < |p[i]| && p[i][k] == x;
    if k > 0 {
      NotBeforeTransitive(key(p[s][0]), key(p[i][0]), key(x), ascending);
    }
  }

  // ----- Equal keys -----

  /** The records with a key, in order. */
  function OfKey<R>(rs: seq<R>, key: R -> string, k: string): seq<R> {
    if rs == [] then [] else (if key(rs[0]) == k then [rs[0]] else []) + OfKey(rs[1..], key, k)
  }

  /** The same of all sources, in turn. */
  function OfKeyAll<R>(p: seq<seq<R>>, key: R -> string, k: string): seq<R> {
    if p == [] then [] else OfKey(p[0], key, k) + OfKeyAll(p[1..], key, k)
  }

  lemma {:induction false} MinHeadFirst<R>(p: seq<seq<R>>, key: R -> string, ascending: bool)
    ensures MinHead(p, key, ascending).Some? ==>
              var m := MinHead(p, key, ascending).value;
              forall i :: 0 <= i < m && p[i] != [] ==> Before(key(p[m][0]), key(p[i][0]), ascending)
  {
    hide Before;
    if p != [] {
      var n := |p| - 1;
      MinHeadFirst(p[..n], key, ascending);
      MinHeadLeast(p[..n], key, ascending);
      var best, m := MinHead(p[..n], key, ascending), MinHead(p, key, ascending);
      if m.Some? && m.value == n {
        forall i | 0 <= i < n && p[i] != []
          ensures Before(key(p[n][0]), key(p[i][0]), ascending)
        {
          assert p[..n][i] == p[i] && p[i] in p[..n];
          LaterBeforeEarlier(key(p[n][0]), key(p[best.value][0]), key(p[i][0]), ascending);
        }
      }
    }
  }

  lemma LaterBeforeEarlier(a: string, b: string, c: string, ascending: bool)
    requires CompareStrings(b, a, ascending) && !Before(c, b, ascending)
    ensures Before(a, c, ascending)
  {
    hide Less;
    LessTotal(b, c);
    LessTotal(a, c);
    if ascending {
      if Less(b, c) {
        LessTransitive(a, b, c);
      }
    } else if Less(c, b) {
      LessTransitive(c, b, a);
    }
  }

  lemma {:induction false} NoneOfKey<R>(rs: seq<R>, key: R -> string, k: string)
    requires forall x :: x in rs ==> key(x) != k
    ensures OfKey(rs, key, k) == []
  {
    if rs != [] {
      assert rs[0] in rs;
      NoneOfKey(rs[1..], key, k);
    }
  }

  /** The first least head goes first. */
  lemma {:induction false} OfKeyPop<R>(p: seq<seq<R>>, s: nat, key: R -> string, k: string)
    requires s < |p| && p[s] != []
    requires key(p[s][0]) == k ==> forall i :: 0 <= i < s ==> OfKey(p[i], key, k) == []
    ensures OfKeyAll(p, key, k)
         == (if key(p[s][0]) == k then [p[s][0]] else []) + OfKeyAll(p[s := p[s][1..]], key, k)
  {
    var q := p[s := p[s][1..]];
    if s == 0 {
      assert q[1..] == p[1..];
    } else {
      assert q[1..] == p[1..][s - 1 := p[1..][s - 1][1..]];
      assert forall i :: 0 <= i < s - 1 ==> p[1..][i] == p[i + 1];
      OfKeyPop(p[1..], s - 1, key, k);
    }
  }

  /** Merging sorted sources is stable: records with equal keys come out in the order of the sources and, within one,
      as they stand there. */
  lemma {:induction false} MergeStable<R>(p: seq<seq<R>>, key: R -> string, ascending: bool, k: string)
    requires forall i :: 0 <= i < |p| ==> SortedBy(p[i], key, ascending)
    ensures OfKey(MergeHeads(p, key, ascending), key, k) == OfKeyAll(p, key, k)
    decreases Size(p)
  {
    hide Before, MergeHeads, MinHead, OfKey, OfKeyAll;
    MergeStep(p, key, ascending);
    MinHeadLeast(p, key, ascending);
    MinHeadFirst(p, key, ascending);
    var m := MinHead(p, key, ascending);
    if m.None? {
      NothingOfKey(p, key, k);
    } else {
      var s := m.value;
      var q: seq<seq<R>> := p[s := p[s][1..]];
      if key(p[s][0]) == k {
        forall i | 0 <= i < s
          ensures OfKey(p[i], key, k) == []
        {
          AllAfter(p[i], key, ascending, k);
        }
      }
      OfKeyPop(p, s, key, k);
      StillSortedBy(p, s, key, ascending);
      MergeStable(q, key, ascending, k);
      OfKeyCons(p[s][0], MergeHeads(q, key, ascending), key, k);
    }
  }

  lemma StillSortedBy<R>(p: seq<seq<R>>, s: nat, key: R -> string, ascending: bool)
    requires s < |p| && p[s] != [] && forall i :: 0 <= i < |p| ==> SortedBy(p[i], key, ascending)
    ensures var q: seq<seq<R>> := p[s := p[s][1..]]; forall i :: 0 <= i < |q| ==> SortedBy(q[i], key, ascending)
  {
    hide Before;
    assert SortedBy(p[s], key, ascending);
  }

  lemma OfKeyCons<R>(x: R, rest: seq<R>, key: R -> string, k: string)
    ensures OfKey([x] + rest, key, k) == (if key(x) == k then [x] else []) + OfKey(rest, key, k)
  {
    assert ([x] + rest)[1..] == rest;
  }

  lemma {:induction false} NothingOfKey<R>(p: seq<seq<R>>, key: R -> string, k: string)
    requires forall s :: s in p ==> s == []
    ensures OfKeyAll(p, key, k) == [] && OfKey([], key, k) == []
  {
    if p != [] {
      assert p[0] in p && forall s :: s in p[1..] ==> s in p;
      NothingOfKey(p[1..], key, k);
    }
  }

  lemma AllAfter<R>(rs: seq<R>, key: R -> string, ascending: bool, k: string)
    requires SortedBy(rs, key, ascending) && (rs != [] ==> Before(k, key(rs[0]), ascending))
    ensures OfKey(rs, key, k) == []
  {
    hide Before, OfKey;
    forall x | x in rs
      ensures key(x) != k
    {
      var i :| 0 <= i < |rs| && rs[i] == x;
      NotBoth(k, key(rs[0]), ascending);
      assert i > 0 ==> !Before(key(rs[i]), key(rs[0]), ascending);
    }
    NoneOfKey(rs, key, k);
  }

  /** A single source is copied as it is, sorted or not. */
  lemma {:induction false} MergeSingle<R>(s: seq<R>, key: R -> string, ascending: bool)
    ensures MergeHeads([s], key, ascending) == s
    decreases |s|
  {
    assert [s][..0] == [];
    if s != [] {
      assert [s][0 := s[1..]] == [s[1..]];
      MergeSingle(s[1..], key, ascending);
    }
  }
}
