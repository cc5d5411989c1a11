/** Choosing among the artifacts that share a build's checksums (artifactory/services/utils/artifactoryutils.go). */
module BuildSearch {
  import opened ResultItems

  datatype Build = Build(buildName: string, buildNumber: string)

  // ----- Build name and number of an item -----

  /** The value of the last property with the key; "" when there is none. */
  function LastValue(properties: seq<Property>, key: string): string {
    if properties == [] then ""
    else
      var p := properties[|properties| - 1];
      if p.key == key then p.value else LastValue(properties[..|properties| - 1], key)
  }

  predicate BothSet(properties: seq<Property>) {
    LastValue(properties, "build.name") != "" && LastValue(properties, "build.number") != ""
  }

  /** How many properties are read: up to the first place at which both values are set. */
  function ReadUpTo(properties: seq<Property>, n: nat): (m: nat)
    requires n <= |properties|
    ensures n <= m <= |properties|
    decreases |properties| - n
  {
    if n == |properties| || BothSet(properties[..n]) then n else ReadUpTo(properties, n + 1)
  }

  /** The build name and number of an item: the last values among the properties read. */
  function BuildFromProps(properties: seq<Property>): (string, string) {
    var read := properties[..ReadUpTo(properties, 0)];
    (LastValue(read, "build.name"), LastValue(read, "build.number"))
  }

  lemma LastValueStep(properties: seq<Property>, m: nat, key: string)
    requires m < |properties|
    ensures LastValue(properties[..m + 1], key)
         == if properties[m].key == key then properties[m].value else LastValue(properties[..m], key)
  {
    assert properties[..m + 1][..m] == properties[..m];
  }

  /** Both values are set where the reading stops, unless at the end of the list, and nowhere before. */
  lemma {:induction false} ReadsUntilSet(properties: seq<Property>, n: nat)
    requires n <= |properties| && forall m :: 0 <= m < n ==> !BothSet(properties[..m])
    ensures var r := ReadUpTo(properties, n);
            (r == |properties| || BothSet(properties[..r])) && forall m :: 0 <= m < r ==> !BothSet(properties[..m])
    decreases |properties| - n
  {
    hide BothSet;
    if n < |properties| && !BothSet(properties[..n]) {
      ReadsUntilSet(properties, n + 1);
    }
  }

  lemma {:induction false} LastValueOnly(properties: seq<Property>, key: string, i: nat)
    requires i < |properties| && properties[i].key == key
    requires forall j :: 0 <= j < |properties| && j != i ==> properties[j].key != key
    ensures LastValue(properties, key) == properties[i].value
  {
    var n := |properties| - 1;
    if i < n {
      LastValueOnly(properties[..n], key, i);
    }
  }

  lemma {:induction false} LastValueNone(properties: seq<Property>, key: string)
    requires forall j :: 0 <= j < |properties| ==> properties[j].key != key
    ensures LastValue(properties, key) == ""
  {
    if properties != [] {
      LastValueNone(properties[..|properties| - 1], key);
    }
  }

  /** The value of a key is that of its last property. */
  lemma {:induction false} LastValueIsLast(properties: seq<Property>, key: string, i: nat)
    requires i < |properties| && properties[i].key == key
    requires forall j :: i < j < |properties| ==> properties[j].key != key
    ensures LastValue(properties, key) == properties[i].value
  {
    var n := |properties| - 1;
    if i < n {
      LastValueIsLast(properties[..n], key, i);
    }
  }

  /** An item with one name and one number property has their values, wherever they stand. */
  lemma BuildOfUniqueProps(properties: seq<Property>, i: nat, j: nat)
    requires i < |properties| && j < |properties| && properties[i].key == "build.name"
             && properties[j].key == "build.number"
    requires forall k :: 0 <= k < |properties| && k != i ==> properties[k].key != "build.name"
    requires forall k :: 0 <= k < |properties| && k != j ==> properties[k].key != "build.number"
    ensures BuildFromProps(properties) == (properties[i].value, properties[j].value)
  {
    hide LastValue;
    var r := ReadUpTo(properties, 0);
    var read := properties[..r];
    ReadsUntilSet(properties, 0);
    assert r == |properties| ==> read == properties;
    if r <= i {
      LastValueNone(read, "build.name");
    } else {
      LastValueOnly(read, "build.name", i);
    }
    if r <= j {
      LastValueNone(read, "build.number");
    } else {
      LastValueOnly(read, "build.number", j);
    }
  }

  method GetBuildNameAndNumberFromProps(properties: seq<Property>) returns (buildName: string, buildNumber: string)
    ensures (buildName, buildNumber) == BuildFromProps(properties)
  {
    hide LastValue;
    buildName, buildNumber := "", "";
    LastValueNone(properties[..0], "build.name");
    LastValueNone(properties[..0], "build.number");
    for n := 0 to |properties|
      invariant buildName == LastValue(properties[..n], "build.name")
                && buildNumber == LastValue(properties[..n], "build.number")
      invariant !BothSet(properties[..n]) && ReadUpTo(properties, 0) == ReadUpTo(properties, n)
    {
      var property := properties[n];
      LastValueStep(properties, n, "build.name");
      LastValueStep(properties, n, "build.number");
      if property.key == "build.name" {
        buildName := property.value;
      } else if property.key == "build.number" {
        buildNumber := property.value;
      }
      if |buildName| > 0 && |buildNumber| > 0 {
        return;
      }
    }
  }

  method IsBuildContained(buildName: string, buildNumber: string, builds: seq<Build>) returns (b: bool)
    ensures b <==> Build(buildName, buildNumber) in builds
  {
    for i := 0 to |builds|
      invariant forall j :: 0 <= j < i ==> builds[j] != Build(buildName, buildNumber)
    {
      if builds[i].buildName == buildName && builds[i].buildNumber == buildNumber {
        return true;
      }
    }
    return false;
  }

  method IsBuildNameContained(buildName: string, builds: seq<Build>) returns (b: bool)
    ensures b <==> exists j :: 0 <= j < |builds| && builds[j].buildName == buildName
  {
    for i := 0 to |builds|
      invariant forall j :: 0 <= j < i ==> builds[j].buildName != buildName
    {
      if builds[i].buildName == buildName {
        return true;
      }
    }
    return false;
  }

  // ----- Priorities -----

  /** 0: build name and number match one of the builds; 1: only the name matches; 2: neither. */
  function Priority(item: ResultItem, builds: seq<Build>): (p: nat)
    ensures p <= 2
  {
    var (name, number) := BuildFromProps(item.properties);
    if Build(name, number) in builds then 0
    else if exists j :: 0 <= j < |builds| && builds[j].buildName == name then 1
    else 2
  }

  /** The best priority among the first `n` items with the given checksum; 2 when there is none. */
  function Best(items: seq<ResultItem>, builds: seq<Build>, sha1: string, n: nat): (p: nat)
    requires n <= |items|
    ensures p <= 2
  {
    if n == 0 then 2
    else
      var before := Best(items, builds, sha1, n - 1);
      if items[n - 1].actualSha1 == sha1 && Priority(items[n - 1], builds) < before then Priority(items[n - 1], builds)
      else before
  }

  /** What the filter is for: all exact matches, and for a checksum without one the first item of its best priority. */
  ghost predicate Chosen(items: seq<ResultItem>, known: set<string>, builds: seq<Build>, i: nat)
    requires i < |items|
  {
    var sha1, p := items[i].actualSha1, Priority(items[i], builds);
    && sha1 in known
    && p == Best(items, builds, sha1, |items|)
    && (p == 0 || forall j :: 0 <= j < i && items[j].actualSha1 == sha1 ==> Priority(items[j], builds) != p)
  }

  ghost function ChosenAt(items: seq<ResultItem>, known: set<string>, builds: seq<Build>, level: nat,
                          n: nat): seq<ResultItem>
    requires n <= |items|
  {
    if n == 0 then []
    else ChosenAt(items, known, builds, level, n - 1)
         + if Priority(items[n - 1], builds) == level && Chosen(items, known, builds, n - 1) then [items[n - 1]] else []
  }

  ghost function AllChosen(items: seq<ResultItem>, known: set<string>, builds: seq<Build>): seq<ResultItem> {
    ChosenAt(items, known, builds, 0, |items|) + ChosenAt(items, known, builds, 1, |items|)
      + ChosenAt(items, known, builds, 2, |items|)
  }

  // ----- Step 1: the priority files -----

  /** An item goes to the file of its own priority unless an earlier item with its checksum had a better one. */
  ghost function PriorityFile(items: seq<ResultItem>, known: set<string>, builds: seq<Build>, level: nat,
                              n: nat): seq<ResultItem>
    requires n <= |items|
  {
    if n == 0 then []
    else PriorityFile(items, known, builds, level, n - 1)
         + if Filed(items, known, builds, n - 1) && Priority(items[n - 1], builds) == level then [items[n - 1]] else []
  }

  ghost predicate Filed(items: seq<ResultItem>, known: set<string>, builds: seq<Build>, i: nat)
    requires i < |items|
  {
    items[i].actualSha1 in known
    && Priority(items[i], builds) <= Best(items, builds, items[i].actualSha1, i)
  }

  lemma NothingFiled(items: seq<ResultItem>, known: set<string>, builds: seq<Build>)
    ensures forall level: nat :: PriorityFile(items, known, builds, level, 0) == []
    ensures forall s :: Best(items, builds, s, 0) == 2
  {
  }

  lemma PriorityFileStep(items: seq<ResultItem>, known: set<string>, builds: seq<Build>, level: nat, n: nat)
    requires n < |items|
    ensures PriorityFile(items, known, builds, level, n + 1)
         == PriorityFile(items, known, builds, level, n)
            + if Filed(items, known, builds, n) && Priority(items[n], builds) == level then [items[n]] else []
  {
    hide Filed, Priority;
  }

  lemma BestStep(items: seq<ResultItem>, builds: seq<Build>, n: nat)
    requires n < |items|
    ensures forall s :: Best(items, builds, s, n + 1)
                     == if items[n].actualSha1 == s && Priority(items[n], builds) < Best(items, builds, s, n)
                        then Priority(items[n], builds) else Best(items, builds, s, n)
  {
    hide Priority;
  }

  method FillPriorityFiles(items: seq<ResultItem>, buildArtifactsSha: map<string, nat>, builds: seq<Build>)
    returns (p0: seq<ResultItem>, p1: seq<ResultItem>, p2: seq<ResultItem>, sha: map<string, nat>)
    requires forall s :: s in buildArtifactsSha ==> buildArtifactsSha[s] == 2
    ensures sha.Keys == buildArtifactsSha.Keys && forall s :: s in sha ==> sha[s] == Best(items, builds, s, |items|)
    ensures var known := buildArtifactsSha.Keys;
            p0 == PriorityFile(items, known, builds, 0, |items|)
            && p1 == PriorityFile(items, known, builds, 1, |items|)
            && p2 == PriorityFile(items, known, builds, 2, |items|)
  {
    hide BuildFromProps, PriorityFile, Best;
    p0, p1, p2, sha := [], [], [], buildArtifactsSha;
    ghost var known := buildArtifactsSha.Keys;
    NothingFiled(items, known, builds);
    var n := 0;
    while n < |items|
      invariant 0 <= n <= |items|
      invariant sha.Keys == known && forall s :: s in sha ==> sha[s] == Best(items, builds, s, n)
      invariant p0 == PriorityFile(items, known, builds, 0, n)
      invariant p1 == PriorityFile(items, known, builds, 1, n)
      invariant p2 == PriorityFile(items, known, builds, 2, n)
    {
      var resultItem := items[n];
      PriorityFileStep(items, known, builds, 0, n);
      PriorityFileStep(items, known, builds, 1, n);
      PriorityFileStep(items, known, builds, 2, n);
      BestStep(items, builds, n);
      n := n + 1;
      if resultItem.actualSha1 !in sha {
        continue;
      }
      var name, number := GetBuildNameAndNumberFromProps(resultItem.properties);
      var exact := IsBuildContained(name, number, builds);
      if exact {
        p0 := p0 + [resultItem];
        sha := sha[resultItem.actualSha1 := 0];
        continue;
      }
      var nameOnly := IsBuildNameContained(name, builds);
      if nameOnly && sha[resultItem.actualSha1] != 0 {
        p1 := p1 + [resultItem];
        sha := sha[resultItem.actualSha1 := 1];
        continue;
      }
      if sha[resultItem.actualSha1] == 2 {
        p2 := p2 + [resultItem];
      }
    }
  }

  // ----- Step 2: writing each checksum once -----

  /** A missing key of a Go map reads as 0, which is also the best priority. */
  function Read(sha: map<string, nat>, key: string): nat {
    if key in sha then sha[key] else 0
  }

  datatype Emitted = Emitted(written: seq<ResultItem>, sha: map<string, nat>)

  function Emit(file: seq<ResultItem>, sha: map<string, nat>, level: nat): Emitted {
    if file == [] then Emitted([], sha)
    else
      var e, item := Emit(file[..|file| - 1], sha, level), file[|file| - 1];
      if Read(e.sha, item.actualSha1) == level then Emitted(e.written + [item], e.sha - {item.actualSha1}) else e
  }

  method AppendPriority(file: seq<ResultItem>, sha: map<string, nat>, level: nat) returns (e: Emitted)
    ensures e == Emit(file, sha, level)
  {
    e := Emitted([], sha);
    var n := 0;
    while n < |file|
      invariant 0 <= n <= |file|
      invariant e == Emit(file[..n], sha, level)
    {
      assert file[..n + 1][..n] == file[..n];
      var resultItem := file[n];
      if Read(e.sha, resultItem.actualSha1) == level {
        e := Emitted(e.written + [resultItem], e.sha - {resultItem.actualSha1});
      }
      n := n + 1;
    }
    assert file[..n] == file;
  }

  lemma {:induction false} BestMonotone(items: seq<ResultItem>, builds: seq<Build>, sha1: string, i: nat, n: nat)
    requires i <= n <= |items|
    ensures Best(items, builds, sha1, n) <= Best(items, builds, sha1, i)
    decreases n
  {
    if i < n {
      BestMonotone(items, builds, sha1, i, n - 1);
    }
  }

  lemma BestBound(items: seq<ResultItem>, builds: seq<Build>, i: nat, n: nat)
    requires i < n <= |items|
    ensures Best(items, builds, items[i].actualSha1, n) <= Priority(items[i], builds)
  {
    hide Priority;
    BestMonotone(items, builds, items[i].actualSha1, i + 1, n);
  }

  /** The first item of a checksum's best priority. */
  lemma {:induction false} BestWitness(items: seq<ResultItem>, builds: seq<Build>, sha1: string, p: nat, n: nat)
    returns (i: nat)
    requires n <= |items| && exists j :: 0 <= j < n && items[j].actualSha1 == sha1 && Priority(items[j], builds) == p
    ensures i < n && items[i].actualSha1 == sha1 && Priority(items[i], builds) == p
    ensures forall j :: 0 <= j < i && items[j].actualSha1 == sha1 ==> Priority(items[j], builds) != p
  {
    hide Priority;
    if j :| 0 <= j < n - 1 && items[j].actualSha1 == sha1 && Priority(items[j], builds) == p {
      i := BestWitness(items, builds, sha1, p, n - 1);
    } else {
      i := n - 1;
    }
  }

  /** The map before level `level` is written: exactly the checksums of that priority or worse that still count. */
  ghost predicate Ready(sha: map<string, nat>, items: seq<ResultItem>, known: set<string>, builds: seq<Build>,
                        level: nat)
  {
    && (forall s :: s in sha ==> s in known && sha[s] == Best(items, builds, s, |items|))
    && (forall s :: s in known && Best(items, builds, s, |items|) >= level ==> s in sha)
  }

  ghost predicate Used(items: seq<ResultItem>, known: set<string>, builds: seq<Build>, level: nat, n: nat, s: string)
    requires n <= |items|
  {
    exists i :: 0 <= i < n && items[i].actualSha1 == s && Priority(items[i], builds) == level
                && Chosen(items, known, builds, i)
  }

  lemma EmitAppend(file: seq<ResultItem>, item: ResultItem, sha: map<string, nat>, level: nat)
    ensures var e := Emit(file, sha, level);
            Emit(file + [item], sha, level)
            == if Read(e.sha, item.actualSha1) == level then Emitted(e.written + [item], e.sha - {item.actualSha1})
               else e
    ensures Emit(file + [], sha, level) == Emit(file, sha, level)
  {
    assert (file + [item])[..|file|] == file;
    assert file + [] == file;
  }

  lemma ChosenStep(items: seq<ResultItem>, known: set<string>, builds: seq<Build>, level: nat, n: nat)
    requires n < |items|
    ensures ChosenAt(items, known, builds, level, n + 1)
         == ChosenAt(items, known, builds, level, n)
            + if Priority(items[n], builds) == level && Chosen(items, known, builds, n) then [items[n]] else []
  {
    hide Priority, Chosen;
  }

  /** Writing the first `n` items' part of a priority file writes exactly the chosen ones among them. */
  lemma {:induction false} EmitChooses(sha: map<string, nat>, items: seq<ResultItem>, known: set<string>,
                                       builds: seq<Build>, level: nat, n: nat)
    requires n <= |items| && level <= 2 && Ready(sha, items, known, builds, level)
    ensures var e := Emit(PriorityFile(items, known, builds, level, n), sha, level);
            && e.written == ChosenAt(items, known, builds, level, n)
            && (forall s :: s in e.sha <==> s in sha && !Used(items, known, builds, level, n, s))
            && (forall s :: s in e.sha ==> e.sha[s] == sha[s])
  {
    hide Priority, Chosen, Best, Filed, Used, Emit, PriorityFile, ChosenAt;
    if n == 0 {
      EmitNothing(sha, items, known, builds, level);
    } else {
      var item, i := items[n - 1], n - 1;
      EmitChooses(sha, items, known, builds, level, i);
      EmitStep(sha, items, known, builds, level, i);
      EmitAppend(PriorityFile(items, known, builds, level, i), item, sha, level);
      UsedStep(items, known, builds, level, i);
      PriorityFileStep(items, known, builds, level, i);
      ChosenStep(items, known, builds, level, i);
      var e := Emit(PriorityFile(items, known, builds, level, i), sha, level);
      if Priority(item, builds) == level {
        assert Read(e.sha, item.actualSha1) ==
               if item.actualSha1 in sha && !Used(items, known, builds, level, i, item.actualSha1)
               then sha[item.actualSha1] else 0;
      }
    }
  }

  lemma EmitNothing(sha: map<string, nat>, items: seq<ResultItem>, known: set<string>, builds: seq<Build>, level: nat)
    ensures PriorityFile(items, known, builds, level, 0) == [] == ChosenAt(items, known, builds, level, 0)
    ensures Emit([], sha, level) == Emitted([], sha)
    ensures forall s :: !Used(items, known, builds, level, 0, s)
  {
  }

  lemma UsedStep(items: seq<ResultItem>, known: set<string>, builds: seq<Build>, level: nat, n: nat)
    requires n < |items|
    ensures forall s :: Used(items, known, builds, level, n + 1, s) <==>
              Used(items, known, builds, level, n, s)
              || (items[n].actualSha1 == s && Priority(items[n], builds) == level && Chosen(items, known, builds, n))
  {
    hide Priority, Chosen;
    forall s
      ensures Used(items, known, builds, level, n + 1, s) <==>
              Used(items, known, builds, level, n, s)
              || (items[n].actualSha1 == s && Priority(items[n], builds) == level && Chosen(items, known, builds, n))
    {
      if i :| 0 <= i < n + 1 && items[i].actualSha1 == s && Priority(items[i], builds) == level
              && Chosen(items, known, builds, i) {
        assert i < n ==> Used(items, known, builds, level, n, s);
      }
    }
  }

  /** One item: its checksum reads as the level exactly when it is chosen. */
  lemma EmitStep(sha: map<string, nat>, items: seq<ResultItem>, known: set<string>, builds: seq<Build>, level: nat,
                 i: nat)
    requires i < |items| && level <= 2 && Ready(sha, items, known, builds, level)
    ensures Priority(items[i], builds) == level ==>
              var s := items[i].actualSha1;
              var value := if s in sha && !Used(items, known, builds, level, i, s) then sha[s] else 0;
              Chosen(items, known, builds, i) <==> Filed(items, known, builds, i) && value == level
  {
    hide Priority, Best;
    if Priority(items[i], builds) == level {
      var s := items[i].actualSha1;
      BestBound(items, builds, i, |items|);
      BestMonotone(items, builds, s, i, |items|);
      if Filed(items, known, builds, i) && Best(items, builds, s, |items|) == level && level > 0 {
        if j :| 0 <= j < i && items[j].actualSha1 == s && Priority(items[j], builds) == level {
          var k := BestWitness(items, builds, s, level, i);
          assert Chosen(items, known, builds, k);
        }
      }
    }
  }

  lemma NextReady(sha: map<string, nat>, sha': map<string, nat>, items: seq<ResultItem>, known: set<string>,
                  builds: seq<Build>, level: nat)
    requires Ready(sha, items, known, builds, level)
    requires forall s :: s in sha' <==> s in sha && !Used(items, known, builds, level, |items|, s)
    requires forall s :: s in sha' ==> sha'[s] == sha[s]
    ensures Ready(sha', items, known, builds, level + 1)
  {
    hide Priority, Best;
  }

  /** filterBuildAqlSearchResults, on the map that extractSha1FromAqlResponse builds (every value is 2). */
  method FilterBuildAqlSearchResults(items: seq<ResultItem>, buildArtifactsSha: map<string, nat>, builds: seq<Build>)
    returns (result: seq<ResultItem>)
    requires forall s :: s in buildArtifactsSha ==> buildArtifactsSha[s] == 2
    ensures result == AllChosen(items, buildArtifactsSha.Keys, builds)
  {
    hide Priority, Best, Chosen, Emit, PriorityFile, ChosenAt, Used;
    ghost var known := buildArtifactsSha.Keys;
    var p0, p1, p2, sha := FillPriorityFiles(items, buildArtifactsSha, builds);
    var e0 := AppendPriority(p0, sha, 0);
    EmitChooses(sha, items, known, builds, 0, |items|);
    NextReady(sha, e0.sha, items, known, builds, 0);
    var e1 := AppendPriority(p1, e0.sha, 1);
    EmitChooses(e0.sha, items, known, builds, 1, |items|);
    NextReady(e0.sha, e1.sha, items, known, builds, 1);
    var e2 := AppendPriority(p2, e1.sha, 2);
    EmitChooses(e1.sha, items, known, builds, 2, |items|);
    result := e0.written + e1.written + e2.written;
  }

  /** Every known checksum that occurs is represented, by its best items only; without an exact match, by one item. */
  lemma ChosenRepresents(items: seq<ResultItem>, known: set<string>, builds: seq<Build>, k: nat)
    requires k < |items| && items[k].actualSha1 in known
    ensures exists i :: 0 <= i < |items| && items[i].actualSha1 == items[k].actualSha1
                        && Chosen(items, known, builds, i)
    ensures forall i, j | 0 <= i < j < |items| && items[i].actualSha1 == items[j].actualSha1 == items[k].actualSha1 ::
              Chosen(items, known, builds, i) && Chosen(items, known, builds, j) ==> Priority(items[i], builds) == 0
  {
    hide Priority;
    var s := items[k].actualSha1;
    BestAttained(items, builds, k, |items|);
    var p := Best(items, builds, s, |items|);
    var i := BestWitness(items, builds, s, p, |items|);
    assert Chosen(items, known, builds, i);
  }

  lemma {:induction false} BestAttained(items: seq<ResultItem>, builds: seq<Build>, k: nat, n: nat)
    requires k < n <= |items|
    ensures exists j :: 0 <= j < n && items[j].actualSha1 == items[k].actualSha1
                        && Priority(items[j], builds) == Best(items, builds, items[k].actualSha1, n)
  {
    hide Priority;
    if k < n - 1 {
      BestAttained(items, builds, k, n - 1);
    } else {
      BestOrTwo(items, builds, items[k].actualSha1, n - 1);
    }
  }

  lemma {:induction false} BestOrTwo(items: seq<ResultItem>, builds: seq<Build>, s: string, n: nat)
    requires n <= |items|
    ensures Best(items, builds, s, n) == 2
            || exists j :: 0 <= j < n && items[j].actualSha1 == s
                           && Priority(items[j], builds) == Best(items, builds, s, n)
  {
    hide Priority;
    if n > 0 {
      BestOrTwo(items, builds, s, n - 1);
    }
  }
}
