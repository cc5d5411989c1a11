/** Sequences: flattening, members and duplicates; and the size of a map. */
module Sequences {
  function Flat<T>(sources: seq<seq<T>>): seq<T> {
    if sources == [] then [] else sources[0] + Flat(sources[1..])
  }

  lemma {:induction false} FlatConcat<T>(a: seq<seq<T>>, b: seq<seq<T>>)
    ensures Flat(a + b) == Flat(a) + Flat(b)
  {
    if a == [] {
      assert a + b == b;
    } else {
      assert (a + b)[1..] == a[1..] + b;
      FlatConcat(a[1..], b);
    }
  }

  lemma FlatAppend<T>(a: seq<seq<T>>, s: seq<T>)
    ensures Flat(a + [s]) == Flat(a) + s
  {
    FlatConcat(a, [s]);
    assert [s][1..] == [];
  }

  lemma {:induction false} FlatMember<T>(p: seq<seq<T>>, x: T)
    ensures x in Flat(p) <==> exists i :: 0 <= i < |p| && x in p[i]
  {
    if p != [] {
      FlatMember(p[1..], x);
      if x in Flat(p[1..]) {
        var i :| 0 <= i < |p[1..]| && x in p[1..][i];
        assert x in p[i + 1];
      }
      assert forall i :: 1 <= i < |p| ==> p[i] == p[1..][i - 1];
    }
  }

  lemma WriteThen<T>(written: seq<T>, x: T, rest: seq<T>)
    ensures (written + [x]) + rest == written + ([x] + rest)
  {
  }

  lemma SameMembers(a: seq<string>, b: seq<string>)
    requires multiset(a) == multiset(b)
    ensures forall k :: k in a <==> k in b
  {
    forall k
      ensures k in a <==> k in b
    {
      assert k in multiset(a) <==> k in multiset(b);
    }
  }

  lemma DistinctSame(a: seq<string>, b: seq<string>)
    requires multiset(a) == multiset(b)
    requires forall i, j :: 0 <= i < j < |a| ==> a[i] != a[j]
    ensures forall i, j :: 0 <= i < j < |b| ==> b[i] != b[j]
  {
    forall i, j | 0 <= i < j < |b|
      ensures b[i] != b[j]
    {
      DistinctCount(a, b[i]);
      CountedTwice(b, i, j);
    }
  }

  lemma CountedTwice(b: seq<string>, i: nat, j: nat)
    requires i < j < |b|
    ensures b[i] == b[j] ==> multiset(b)[b[i]] >= 2
  {
    assert b == b[..j] + ([b[j]] + b[j + 1..]);
    assert b[i] in b[..j];
    assert multiset(b) == multiset(b[..j]) + multiset([b[j]] + b[j + 1..]);
    assert multiset([b[j]] + b[j + 1..]) == multiset{b[j]} + multiset(b[j + 1..]);
    assert multiset(b[..j])[b[i]] >= 1;
  }

  lemma {:induction false} DistinctCount(a: seq<string>, x: string)
    requires forall i, j :: 0 <= i < j < |a| ==> a[i] != a[j]
    ensures multiset(a)[x] <= 1
  {
    if a != [] {
      assert a == [a[0]] + a[1..];
      DistinctCount(a[1..], x);
      assert a[0] !in a[1..];
    }
  }

  lemma OneMoreKey<K, V>(m: map<K, V>, k: K, v: V)
    requires k !in m
    ensures |m[k := v]| == |m| + 1
  {
    assert m[k := v].Keys == m.Keys + {k};
    assert |m[k := v]| == |m[k := v].Keys|;
  }
}
