/** Exactly for which patterns without a slash, which also stand for whole repositories, the query is exact. */
module RepoPathNoSlash {
  import opened Text
  import opened Wildcard
  import opened RepoPathFiles
  import opened RepoPathQuery
  import opened RepoPathAgreement
  import opened RepoPathRootItems

  /** The whole query finds the item if and only if the pattern matches its repository or its full path. */
  ghost predicate AgreeOrRepo(p: string, a: Artifact)
    requires !HasPrefix(p, "/")
  {
    Query(p, true, a) <==> Match(p, a.repo) || Match(p, FullPath(a))
  }

  /** A dot between two stars can match the stored path of a root item. */
  predicate StarDotStar(p: string) {
    exists i :: 0 <= i < |p| - 2 && p[i] == '*' && p[i + 1] == '.' && p[i + 2] == '*'
  }

  lemma WithoutSlash(p: string)
    requires '/' !in p
    ensures Index(p, '/') == -1 && !HasPrefix(p, "/") && NoDoubleSlash(p) && Count(p, '/') < 2 && !Loosened(p)
  {
    hide Index;
    IndexIsFirst(p, '/');
    assert p != "" ==> p[..1] == [p[0]];
  }

  lemma QueryOnItem(p: string, a: Artifact)
    requires '/' !in p && WellFormed(a)
    ensures !HasPrefix(p, "/")
    ensures Query(p, true, a) <==> Match(p, a.repo) || Match(p, FullPath(a)) || Match(p, StoredPath(a))
  {
    hide Match, Count, Translate, AnyMatches, WellFormed, NoDoubleSlash, Index, HasPrefix, FullPath, StoredPath,
         Loosened;
    WithoutSlash(p);
    TranslationExact(p, a);
  }

  // ----- Exact patterns -----

  /** A pattern that matches the stored path and has no dot between two stars matches the full path. */
  lemma StoredIsFull(p: string, repo: string, name: string)
    requires '/' !in p && !StarDotStar(p) && Match(p, repo + "/" + ("./" + name))
    ensures Match(p, repo + "/" + name)
  {
    hide Match, StarDotStar;
    var k := FindSlash(p, repo, "./" + name);
    assert p[k] in p;
    var u := p[k..];
    assert forall i :: 0 <= i < |u| ==> u[i] == p[k + i] && p[k + i] in p;
    assert "./" + name == "." + "/" + name;
    var j := FindSlash(u, ".", name);
    assert u[j] in u;
    var v := u[..j + 1];
    MatchesDot(v);
    if AllStars(v) {
      StarsBridge(p, k, j, repo, name);
    } else {
      var i :| 0 <= i < |v| && v[i] == '.' && AllStars(v[..i]) && AllStars(v[i + 1..]);
      assert i > 0 && v[..i][i - 1] == '*';
      assert i < j && v[i + 1..][0] == '*';
      DotBetween(p, k + i - 1);
    }
  }

  lemma DotBetween(p: string, i: nat)
    requires i < |p| - 2 && p[i] == '*' && p[i + 1] == '.' && p[i + 2] == '*'
    ensures StarDotStar(p)
  {
  }

  lemma StarsBridge(p: string, k: nat, j: nat, repo: string, name: string)
    requires k + j < |p| && p[k] == '*' && AllStars(p[k..][..j + 1])
    requires Match(p[..k + 1], repo) && Match(p[k..][j..], name)
    ensures Match(p, repo + "/" + name)
  {
    hide Match;
    var middle, rest := p[k + 1..k + j + 1], p[k..][j..];
    var v := p[k..][..j + 1];
    assert middle == v[1..] && AllStars(v[1..]);
    MatchesNothing(middle);
    assert rest == "*" + p[k + j + 1..] && p[..k + 1] == p[..k] + "*";
    StarTakesSlash(rest, name);
    MatchConcat(p[..k + 1], repo, middle, "");
    assert p[..k + 1] + middle == p[..k + j + 1] && repo + "" == repo;
    assert p == p[..k + j + 1] + p[k + j + 1..];
    LastStarBridge(p, k + j, repo, name);
  }

  /** The star at `k` takes the slash between what it and the text before it, and it and the text after it, match. */
  lemma LastStarBridge(p: string, k: nat, repo: string, name: string)
    requires k < |p| && p[k] == '*' && Match(p[..k + 1], repo) && Match(p[k..], name)
    ensures Match(p, repo + "/" + name)
  {
    assert SlashAt(p, k, repo, name);
    MatchAcrossSlash(p, repo, name);
  }

  // ----- Patterns that over-match -----

  lemma DotWitness(p: string) returns (a: Artifact)
    requires '/' !in p && StarDotStar(p)
    ensures AtRoot(a) && Match(p, StoredPath(a)) && !Match(p, a.repo) && !Match(p, FullPath(a))
  {
    hide Match, Fill, Count, AtRoot, FullPath, StoredPath;
    var i :| 0 <= i < |p| - 2 && p[i] == '*' && p[i + 1] == '.' && p[i + 2] == '*';
    var front, back := p[..i + 1], p[i + 2..];
    assert p == front + "." + back;
    a := Artifact(Fill(front), ".", Fill(back));
    AroundDot(p, front, back);
    ItemPaths(a);
    DotTaken(front, back, a.repo, a.name);
    DotsMissing(p, front, back);
  }

  lemma AroundDot(p: string, front: string, back: string)
    requires p == front + "." + back && '/' !in p && front != "" && back != ""
    ensures AtRoot(Artifact(Fill(front), ".", Fill(back)))
  {
    hide Match, Fill, WellFormed;
    assert forall j :: 0 <= j < |front| ==> front[j] == p[j] && p[j] in p;
    assert forall j :: 0 <= j < |back| ==> back[j] == p[|front| + 1 + j] && p[|front| + 1 + j] in p;
    FilledSegment(front);
    FilledSegment(back);
    RootItem(Fill(front), Fill(back));
  }

  lemma DotTaken(front: string, back: string, repo: string, name: string)
    requires front != "" && front[|front| - 1] == '*' && back != "" && back[0] == '*'
    requires Match(front, repo) && Match(back, name)
    ensures Match(front + "." + back, repo + "/" + ("./" + name))
  {
    hide Match;
    StarAtEnd(front, repo);
    StarTakesSlash(back, name);
    MatchLiteral(".", ".");
    MatchConcat(front, repo + "/", ".", ".");
    MatchConcat(front + ".", repo + "/" + ".", back, "/" + name);
    assert repo + "/" + "." + ("/" + name) == repo + "/" + ("./" + name);
  }

  lemma DotsMissing(p: string, front: string, back: string)
    requires p == front + "." + back
    ensures !Match(p, Fill(front)) && !Match(p, Fill(front) + "/" + Fill(back))
  {
    hide Match, Fill, Count;
    FillCount(front, '.');
    FillCount(back, '.');
    assert p == front + ("." + back);
    CountConcat(front, "." + back, '.');
    CountConcat(".", back, '.');
    OneDot();
    assert Fill(front) + "/" + Fill(back) == Fill(front) + ("/" + Fill(back));
    CountConcat(Fill(front), "/" + Fill(back), '.');
    CountConcat("/", Fill(back), '.');
    NoDot();
    if Match(p, Fill(front)) {
      MatchCount(p, Fill(front), '.');
    }
    if Match(p, Fill(front) + "/" + Fill(back)) {
      MatchCount(p, Fill(front) + "/" + Fill(back), '.');
    }
  }

  lemma NoDot()
    ensures Count("/", '.') == 0
  {
  }

  // ----- The exact condition -----

  /** For every pattern without a slash: the whole query finds exactly the items whose repository or full path it
      matches, if and only if it has no dot between two stars. */
  lemma AgreeWithoutSlashIff(p: string)
    requires '/' !in p
    ensures !HasPrefix(p, "/")
    ensures (forall a :: WellFormed(a) ==> AgreeOrRepo(p, a)) <==> !StarDotStar(p)
  {
    hide Match, Count, Query, WellFormed, FullPath, StoredPath, StarDotStar, HasPrefix;
    WithoutSlash(p);
    if StarDotStar(p) {
      var a := DotWitness(p);
      QueryOnItem(p, a);
      assert WellFormed(a) && !AgreeOrRepo(p, a);
    } else {
      forall a | WellFormed(a)
        ensures AgreeOrRepo(p, a)
      {
        QueryOnItem(p, a);
        ItemPaths(a);
        if a.path == "." && Match(p, StoredPath(a)) {
          StoredIsFull(p, a.repo, a.name);
        }
      }
    }
  }

  lemma ItemPaths(a: Artifact)
    ensures a.path != "." ==> StoredPath(a) == FullPath(a)
    ensures a.path == "." ==> StoredPath(a) == a.repo + "/" + ("./" + a.name) && FullPath(a) == a.repo + "/" + a.name
  {
  }
}
