/** What the choice among the artifacts that share a checksum amounts to, said of builds and not of priorities
    (filterBuildAqlSearchResults in artifactory/services/utils/artifactoryutils.go). */
module BuildSelection {
  import opened ResultItems
  import opened BuildSearch

  /** The item belongs to one of the builds. */
  predicate Exact(item: ResultItem, builds: seq<Build>) {
    var (name, number) := BuildFromProps(item.properties);
    Build(name, number) in builds
  }

  /** The item belongs to some number of one of the builds. */
  predicate Named(item: ResultItem, builds: seq<Build>) {
    exists j :: 0 <= j < |builds| && builds[j].buildName == BuildFromProps(item.properties).0
  }

  function OfChecksum(items: seq<ResultItem>, sha1: string): seq<ResultItem> {
    if items == [] then []
    else
      var last := items[|items| - 1];
      OfChecksum(items[..|items| - 1], sha1) + if last.actualSha1 == sha1 then [last] else []
  }

  function OfKnown(items: seq<ResultItem>, known: set<string>): seq<ResultItem> {
    if items == [] then []
    else
      var last := items[|items| - 1];
      OfKnown(items[..|items| - 1], known) + if last.actualSha1 in known then [last] else []
  }

  function Exacts(items: seq<ResultItem>, builds: seq<Build>): seq<ResultItem> {
    if items == [] then []
    else
      var last := items[|items| - 1];
      Exacts(items[..|items| - 1], builds) + if Exact(last, builds) then [last] else []
  }

  function Nameds(items: seq<ResultItem>, builds: seq<Build>): seq<ResultItem> {
    if items == [] then []
    else
      var last := items[|items| - 1];
      Nameds(items[..|items| - 1], builds) + if Named(last, builds) then [last] else []
  }

  function First(items: seq<ResultItem>): seq<ResultItem> {
    if items == [] then [] else [items[0]]
  }

  // ----- One checksum at one level -----

  lemma PriorityIs(item: ResultItem, builds: seq<Build>)
    ensures Priority(item, builds) == if Exact(item, builds) then 0 else if Named(item, builds) then 1 else 2
    ensures Exact(item, builds) ==> Named(item, builds)
  {
    hide BuildFromProps;
  }

  /** The items of a checksum with a priority. */
  function AtLevel(items: seq<ResultItem>, builds: seq<Build>, sha1: string, level: nat): seq<ResultItem> {
    if items == [] then []
    else
      var last := items[|items| - 1];
      AtLevel(items[..|items| - 1], builds, sha1, level)
      + if last.actualSha1 == sha1 && Priority(last, builds) == level then [last] else []
  }

  lemma {:induction false} LevelsAre(items: seq<ResultItem>, builds: seq<Build>, sha1: string)
    ensures var all := OfChecksum(items, sha1);
            && AtLevel(items, builds, sha1, 0) == Exacts(all, builds)
            && (Exacts(all, builds) == [] ==> AtLevel(items, builds, sha1, 1) == Nameds(all, builds))
            && (Nameds(all, builds) == [] ==> AtLevel(items, builds, sha1, 2) == all)
            && (Nameds(all, builds) == [] ==> Exacts(all, builds) == [])
  {
    hide Priority, Exact, Named;
    if items != [] {
      var front, last := items[..|items| - 1], items[|items| - 1];
      LevelsAre(front, builds, sha1);
      PriorityIs(last, builds);
      var all := OfChecksum(front, sha1);
      assert (all + [last])[..|all|] == all;
      assert all + [] == all;
    }
  }

  lemma OfChecksumMore(list: seq<ResultItem>, x: ResultItem, sha1: string)
    ensures OfChecksum(list + [x], sha1) == OfChecksum(list, sha1) + if x.actualSha1 == sha1 then [x] else []
    ensures OfChecksum(list + [], sha1) == OfChecksum(list, sha1)
  {
    assert (list + [x])[..|list|] == list && list + [] == list;
  }

  lemma AtLevelStep(items: seq<ResultItem>, builds: seq<Build>, sha1: string, level: nat, n: nat)
    requires n < |items|
    ensures AtLevel(items[..n + 1], builds, sha1, level)
         == AtLevel(items[..n], builds, sha1, level)
            + if items[n].actualSha1 == sha1 && Priority(items[n], builds) == level then [items[n]] else []
  {
    hide Priority;
    assert items[..n + 1][..n] == items[..n];
  }

  lemma {:induction false} AtLevelEmpty(items: seq<ResultItem>, builds: seq<Build>, sha1: string, level: nat, n: nat)
    requires n <= |items|
    ensures AtLevel(items[..n], builds, sha1, level) == [] <==>
            forall j :: 0 <= j < n && items[j].actualSha1 == sha1 ==> Priority(items[j], builds) != level
  {
    hide Priority, AtLevel;
    if n == 0 {
      NothingAtLevel(builds, sha1, level);
      assert items[..0] == [];
    } else {
      AtLevelStep(items, builds, sha1, level, n - 1);
      AtLevelEmpty(items, builds, sha1, level, n - 1);
    }
  }

  lemma NothingAtLevel(builds: seq<Build>, sha1: string, level: nat)
    ensures AtLevel([], builds, sha1, level) == []
  {
  }

  /** What a level writes of a checksum: all its items, or the first, if the level is its best. */
  function Written(items: seq<ResultItem>, known: set<string>, builds: seq<Build>, sha1: string, level: nat,
                   n: nat): seq<ResultItem>
    requires n <= |items|
  {
    if sha1 !in known || Best(items, builds, sha1, |items|) != level then []
    else if level == 0 then AtLevel(items[..n], builds, sha1, level)
    else First(AtLevel(items[..n], builds, sha1, level))
  }

  lemma {:induction false} LevelWrites(items: seq<ResultItem>, known: set<string>, builds: seq<Build>, sha1: string,
                                       level: nat, n: nat)
    requires n <= |items|
    ensures OfChecksum(ChosenAt(items, known, builds, level, n), sha1)
         == Written(items, known, builds, sha1, level, n)
  {
    hide Priority, Best, ChosenAt, AtLevel, OfChecksum;
    if n == 0 {
      NothingWritten(items, known, builds, sha1, level);
      assert items[..0] == [];
    } else {
      var i := n - 1;
      LevelWrites(items, known, builds, sha1, level, i);
      ChosenStep(items, known, builds, level, i);
      OfChecksumMore(ChosenAt(items, known, builds, level, i), items[i], sha1);
      AtLevelStep(items, builds, sha1, level, i);
      AtLevelEmpty(items, builds, sha1, level, i);
    }
  }

  lemma NothingWritten(items: seq<ResultItem>, known: set<string>, builds: seq<Build>, sha1: string, level: nat)
    ensures OfChecksum(ChosenAt(items, known, builds, level, 0), sha1) == []
    ensures AtLevel([], builds, sha1, level) == []
  {
  }

  lemma {:induction false} OfChecksumConcat(a: seq<ResultItem>, b: seq<ResultItem>, sha1: string)
    ensures OfChecksum(a + b, sha1) == OfChecksum(a, sha1) + OfChecksum(b, sha1)
  {
    if b == [] {
      assert a + b == a;
    } else {
      assert (a + b)[..|a + b| - 1] == a + b[..|b| - 1];
      OfChecksumConcat(a, b[..|b| - 1], sha1);
    }
  }

  /** The best priority is that of some item, and of none better. */
  lemma BestIs(items: seq<ResultItem>, builds: seq<Build>, sha1: string)
    ensures Best(items, builds, sha1, |items|)
         == if AtLevel(items, builds, sha1, 0) != [] then 0 else if AtLevel(items, builds, sha1, 1) != [] then 1 else 2
  {
    hide Priority, AtLevel, Best;
    var n := |items|;
    assert items[..n] == items;
    AtLevelEmpty(items, builds, sha1, 0, n);
    AtLevelEmpty(items, builds, sha1, 1, n);
    AtLevelEmpty(items, builds, sha1, 2, n);
    BestOrTwo(items, builds, sha1, n);
    forall j | 0 <= j < n && items[j].actualSha1 == sha1
      ensures Best(items, builds, sha1, n) <= Priority(items[j], builds)
    {
      BestBound(items, builds, j, n);
    }
    BestAtMostTwo(items, builds, sha1);
  }

  lemma BestAtMostTwo(items: seq<ResultItem>, builds: seq<Build>, sha1: string)
    ensures Best(items, builds, sha1, |items|) <= 2
  {
  }

  // ----- What is written -----

  /** For every checksum: nothing if it is not known; else all items that belong to one of the builds, in the order of
      the input; else the first that belongs to another number of one of the builds; else the first. */
  lemma WrittenOfChecksum(items: seq<ResultItem>, known: set<string>, builds: seq<Build>, sha1: string)
    ensures var all := OfChecksum(items, sha1);
            OfChecksum(AllChosen(items, known, builds), sha1)
            == if sha1 !in known then []
               else if Exacts(all, builds) != [] then Exacts(all, builds)
               else if Nameds(all, builds) != [] then [Nameds(all, builds)[0]]
               else if all != [] then [all[0]]
               else []
  {
    hide Best, AtLevel, OfChecksum, Exacts, Nameds, ChosenAt;
    var n := |items|;
    assert items[..n] == items;
    LevelWrites(items, known, builds, sha1, 0, n);
    LevelWrites(items, known, builds, sha1, 1, n);
    LevelWrites(items, known, builds, sha1, 2, n);
    var c0, c1 := ChosenAt(items, known, builds, 0, n), ChosenAt(items, known, builds, 1, n);
    OfChecksumConcat(c0, c1, sha1);
    OfChecksumConcat(c0 + c1, ChosenAt(items, known, builds, 2, n), sha1);
    BestIs(items, builds, sha1);
    LevelsAre(items, builds, sha1);
  }

  lemma {:induction false} ChosenHasLevel(items: seq<ResultItem>, known: set<string>, builds: seq<Build>, level: nat,
                                          n: nat, k: nat)
    requires n <= |items| && k < |ChosenAt(items, known, builds, level, n)|
    ensures Priority(ChosenAt(items, known, builds, level, n)[k], builds) == level
  {
    hide Priority, Chosen;
    if k < |ChosenAt(items, known, builds, level, n - 1)| {
      ChosenHasLevel(items, known, builds, level, n - 1, k);
    }
  }

  /** Items that belong to one of the builds come first, and those that belong to another number of one before the
      others. */
  lemma BetterFirst(items: seq<ResultItem>, known: set<string>, builds: seq<Build>, i: nat, j: nat)
    requires i < j < |AllChosen(items, known, builds)|
    ensures var c := AllChosen(items, known, builds);
            (Exact(c[j], builds) ==> Exact(c[i], builds)) && (Named(c[j], builds) ==> Named(c[i], builds))
  {
    hide Priority, ChosenAt, Exact, Named;
    var c := AllChosen(items, known, builds);
    LevelOf(items, known, builds, i);
    LevelOf(items, known, builds, j);
    PriorityIs(c[i], builds);
    PriorityIs(c[j], builds);
  }

  lemma LevelOf(items: seq<ResultItem>, known: set<string>, builds: seq<Build>, k: nat)
    requires k < |AllChosen(items, known, builds)|
    ensures var a := |ChosenAt(items, known, builds, 0, |items|)|;
            var b := a + |ChosenAt(items, known, builds, 1, |items|)|;
            Priority(AllChosen(items, known, builds)[k], builds) == if k < a then 0 else if k < b then 1 else 2
  {
    hide Priority, ChosenAt;
    var n := |items|;
    var a := |ChosenAt(items, known, builds, 0, n)|;
    var b := a + |ChosenAt(items, known, builds, 1, n)|;
    if k < a {
      ChosenHasLevel(items, known, builds, 0, n, k);
    } else if k < b {
      ChosenHasLevel(items, known, builds, 1, n, k - a);
    } else {
      ChosenHasLevel(items, known, builds, 2, n, k - b);
    }
  }

  /** All items of known checksums that belong to one of the builds are written, in the order of the input. */
  lemma ExactsWritten(items: seq<ResultItem>, known: set<string>, builds: seq<Build>)
    ensures Exacts(AllChosen(items, known, builds), builds) == Exacts(OfKnown(items, known), builds)
  {
    hide ChosenAt, Exacts;
    var n := |items|;
    assert items[..n] == items;
    var c0, c1 := ChosenAt(items, known, builds, 0, n), ChosenAt(items, known, builds, 1, n);
    var c2 := ChosenAt(items, known, builds, 2, n);
    ExactsAtLevel(items, known, builds, 0, n);
    ExactsAtLevel(items, known, builds, 1, n);
    ExactsAtLevel(items, known, builds, 2, n);
    ExactsConcat(c0, c1, builds);
    ExactsConcat(c0 + c1, c2, builds);
  }

  lemma {:induction false} ExactsConcat(a: seq<ResultItem>, b: seq<ResultItem>, builds: seq<Build>)
    ensures Exacts(a + b, builds) == Exacts(a, builds) + Exacts(b, builds)
  {
    hide Exact;
    if b == [] {
      assert a + b == a;
    } else {
      assert (a + b)[..|a + b| - 1] == a + b[..|b| - 1];
      ExactsConcat(a, b[..|b| - 1], builds);
    }
  }

  lemma ExactsOne(x: ResultItem, builds: seq<Build>)
    ensures Exacts([x], builds) == if Exact(x, builds) then [x] else []
    ensures Exacts([], builds) == []
  {
    hide Exact;
  }

  lemma {:induction false} ExactsAtLevel(items: seq<ResultItem>, known: set<string>, builds: seq<Build>, level: nat,
                                         n: nat)
    requires n <= |items|
    ensures Exacts(ChosenAt(items, known, builds, level, n), builds)
         == if level == 0 then Exacts(OfKnown(items[..n], known), builds) else []
  {
    hide Priority, Best, ChosenAt, Exacts, Exact, OfKnown;
    if n == 0 {
      NothingChosen(items, known, builds, level);
      assert items[..0] == [];
    } else {
      var i := n - 1;
      var x := items[i];
      ExactsAtLevel(items, known, builds, level, i);
      ChosenStep(items, known, builds, level, i);
      OfKnownStep(items, known, i);
      PriorityIs(x, builds);
      BestBound(items, builds, i, |items|);
      ExactsOne(x, builds);
      var more := if Priority(x, builds) == level && Chosen(items, known, builds, i) then [x] else [];
      ExactsConcat(ChosenAt(items, known, builds, level, i), more, builds);
      ExactsConcat(OfKnown(items[..i], known), if x.actualSha1 in known then [x] else [], builds);
    }
  }

  lemma NothingChosen(items: seq<ResultItem>, known: set<string>, builds: seq<Build>, level: nat)
    ensures ChosenAt(items, known, builds, level, 0) == [] && OfKnown([], known) == [] && Exacts([], builds) == []
  {
  }

  lemma OfKnownStep(items: seq<ResultItem>, known: set<string>, n: nat)
    requires n < |items|
    ensures OfKnown(items[..n + 1], known)
         == OfKnown(items[..n], known) + if items[n].actualSha1 in known then [items[n]] else []
  {
    assert items[..n + 1][..n] == items[..n];
  }
}
