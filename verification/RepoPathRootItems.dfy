/** Exactly for which patterns with one slash the query is exact on items at the root of a repository, whose stored
    path is ".". */
module RepoPathRootItems {
  import opened Text
  import opened Wildcard
  import opened RepoPathFiles
  import opened RepoPathQuery
  import opened RepoPathAgreement

  /** Without the stars at the start. */
  function TrimStars(q: string): string {
    if q != "" && q[0] == '*' then TrimStars(q[1..]) else q
  }

  /** Without the stars at the end. */
  function TrimEndStars(r: string): string {
    if r != "" && r[|r| - 1] == '*' then TrimEndStars(r[..|r| - 1]) else r
  }

  /** After the stars at the start stands a single dot before the next star: it can match the stored path. */
  predicate DotThenStar(q: string) {
    HasPrefix(TrimStars(q), ".*")
  }

  /** Before the stars at the end stands a single dot after another star: it can match the stored path. */
  predicate StarThenDot(r: string) {
    HasSuffix(TrimEndStars(r), "*.")
  }

  /** The ways in which a pattern with one slash finds root items that it does not match. */
  predicate RootOverMatches(p: string) {
    var r, q := RepoPart(p), AfterRepo(p);
    q != "" && ((HasSuffix(r, "*") && '*' in q && q[0] != '*') || DotThenStar(q) || StarThenDot(r))
  }

  /** A repository name and a pattern without further slashes. */
  predicate OneSlashPattern(p: string) {
    Count(p, '/') == 1 && !HasPrefix(p, "/")
  }

  ghost predicate AtRoot(a: Artifact) {
    WellFormed(a) && a.path == "."
  }

  /** The whole query, with its rule on root items, finds the item if and only if the pattern matches its full path. */
  ghost predicate Agree(p: string, a: Artifact)
    requires !HasPrefix(p, "/")
  {
    Query(p, true, a) <==> Match(p, FullPath(a))
  }

  // ----- One slash -----

  lemma OneSlashParts(p: string)
    requires OneSlashPattern(p)
    ensures '/' in p && p == RepoPart(p) + "/" + AfterRepo(p) && RepoPart(p) != ""
    ensures '/' !in RepoPart(p) && '/' !in AfterRepo(p) && NoDoubleSlash(p)
  {
    hide Count, RepoPart, AfterRepo, NoDoubleSlash;
    PatternParts(p);
    var r, q := RepoPart(p), AfterRepo(p);
    CountParts(r, q);
    assert p == r + ("/" + q);
    NoSecondSlash(r, q);
  }

  lemma CountParts(r: string, q: string)
    ensures Count(r + ("/" + q), '/') == Count(r, '/') + 1 + Count(q, '/')
  {
    hide Count;
    CountConcat(r, "/" + q, '/');
    CountConcat("/", q, '/');
    CountOneSlash();
  }

  lemma NoSecondSlash(r: string, q: string)
    requires '/' !in r && '/' !in q
    ensures NoDoubleSlash(r + ("/" + q))
  {
    var p := r + ("/" + q);
    assert forall i :: 0 <= i < |r| ==> p[i] == r[i] && r[i] in r;
    assert forall i :: |r| < i < |p| ==> p[i] == q[i - |r| - 1] && q[i - |r| - 1] in q;
  }

  /** Without other slashes the pattern's slash matches the path's. */
  lemma OneSlashMatch(r: string, q: string, repo: string, name: string)
    requires '/' !in repo && '/' !in name
    ensures Match(r + "/" + q, repo + "/" + name) <==> Match(r, repo) && Match(q, name)
  {
    hide Match;
    var s := repo + "/" + name;
    if Match(r + "/" + q, s) {
      var i := SlashOfMatch(r, q, s);
      assert forall j :: 0 <= j < |repo| ==> s[j] == repo[j] && repo[j] in repo;
      assert forall j :: |repo| < j < |s| ==> s[j] == name[j - |repo| - 1] && s[j] in name;
      assert s[..i] == repo && s[i + 1..] == name;
    }
    if Match(r, repo) && Match(q, name) {
      JoinMatch(r, q, repo, name);
    }
  }

  lemma JoinMatch(r: string, q: string, repo: string, name: string)
    requires Match(r, repo) && Match(q, name)
    ensures Match(r + "/" + q, repo + "/" + name)
  {
    hide Match;
    MatchLiteral("/", "/");
    MatchConcat(r, repo, "/", "/");
    MatchConcat(r + "/", repo + "/", q, name);
  }

  /** With a dot between two slashes, the pattern's slash matches one of them. */
  lemma StoredMatch(r: string, q: string, repo: string, name: string)
    requires '/' !in repo && '/' !in name
    ensures Match(r + "/" + q, repo + "/" + ("./" + name)) <==>
            (Match(r, repo) && Match(q, "./" + name)) || (Match(r, repo + "/.") && Match(q, name))
  {
    hide Match;
    var s := repo + "/" + ("./" + name);
    if Match(r + "/" + q, s) {
      var i := SlashOfMatch(r, q, s);
      SlashesOfStored(repo, name, i);
    }
    if Match(r, repo) && Match(q, "./" + name) {
      JoinMatch(r, q, repo, "./" + name);
    }
    if Match(r, repo + "/.") && Match(q, name) {
      JoinMatch(r, q, repo + "/.", name);
      assert s == repo + "/." + "/" + name;
    }
  }

  lemma SlashesOfStored(repo: string, name: string, i: nat)
    requires '/' !in repo && '/' !in name
    requires var s := repo + "/" + ("./" + name); i < |s| && s[i] == '/'
    ensures var s := repo + "/" + ("./" + name);
            (s[..i] == repo && s[i + 1..] == "./" + name) || (s[..i] == repo + "/." && s[i + 1..] == name)
  {
    var s, n := repo + "/" + ("./" + name), |repo|;
    StoredSlashAt(repo, name, i);
    if i == n {
      assert s[..n] == repo && s[n + 1..] == "./" + name;
    } else {
      assert s == repo + "/." + ("/" + name);
      assert s[..n + 2] == repo + "/." && s[n + 3..] == name;
    }
  }

  lemma StoredSlashAt(repo: string, name: string, i: nat)
    requires '/' !in repo && '/' !in name
    requires var s := repo + "/" + ("./" + name); i < |s| && s[i] == '/'
    ensures i == |repo| || i == |repo| + 2
  {
    var s, n := repo + "/" + ("./" + name), |repo|;
    assert forall j :: 0 <= j < n ==> s[j] == repo[j] && repo[j] in repo;
    assert s[n + 1] == '.';
    assert forall j :: n + 2 < j < |s| ==> s[j] == name[j - n - 3] && name[j - n - 3] in name;
  }

  // ----- The stored path inside the name part -----

  /** Without a slash of its own, a pattern absorbs a leading slash by a star at its start. */
  lemma {:induction false} AbsorbSlash(q: string, name: string)
    requires '/' !in q && Match(q, "/" + name)
    ensures Match(q, name) && q != "" && q[0] == '*'
  {
    var s := "/" + name;
    assert s[1..] == name;
    assert q != "" ==> q[0] in q;
    if Match(q[1..], s) {
      assert '/' !in q[1..];
      AbsorbSlash(q[1..], name);
    }
  }

  /** A pattern that matches the name after the stored path matches the name, or has a dot for the stored path. */
  lemma {:induction false} AbsorbDot(q: string, name: string)
    requires '/' !in q && Match(q, "./" + name)
    ensures Match(q, name) || DotThenStar(q)
  {
    var s := "./" + name;
    assert s[1..] == "/" + name;
    assert q != "" && (q[0] == '*' || q[0] == '.');
    if q[0] == '.' {
      assert '/' !in q[1..];
      AbsorbSlash(q[1..], name);
      assert q[..2] == [q[0], q[1]] && q[1] == q[1..][0];
    } else if Match(q[1..], s) {
      assert '/' !in q[1..];
      AbsorbDot(q[1..], name);
    } else {
      AbsorbSlash(q, name);
    }
  }

  // ----- The stored path inside the repository part -----

  predicate AllStars(s: string) {
    forall i :: 0 <= i < |s| ==> s[i] == '*'
  }

  lemma {:induction false} TrimStarsAt(q: string) returns (j: nat)
    ensures j <= |q| && AllStars(q[..j]) && TrimStars(q) == q[j..]
  {
    if q != "" && q[0] == '*' {
      var k := TrimStarsAt(q[1..]);
      j := k + 1;
      assert forall i :: 1 <= i < j ==> q[..j][i] == q[1..][..k][i - 1];
    } else {
      j := 0;
    }
  }

  lemma {:induction false} TrimEndStarsAt(r: string) returns (j: nat)
    ensures j <= |r| && AllStars(r[j..]) && TrimEndStars(r) == r[..j]
  {
    if r != "" && r[|r| - 1] == '*' {
      var front := r[..|r| - 1];
      j := TrimEndStarsAt(front);
      assert forall i :: j <= i < |front| ==> r[i] == front[j..][i - j];
      assert r[..j] == front[..j];
    } else {
      j := |r|;
    }
  }

  lemma {:induction false} TrimEndOf(u: string, stars: string)
    requires u != "" && u[|u| - 1] != '*' && AllStars(stars)
    ensures TrimEndStars(u + stars) == u
  {
    if stars == "" {
      assert u + stars == u;
    } else {
      var n := |stars| - 1;
      assert (u + stars)[..|u + stars| - 1] == u + stars[..n];
      TrimEndOf(u, stars[..n]);
    }
  }

  /** What matches a single dot: stars, and at most one dot among them. */
  lemma {:induction false} MatchesDot(v: string)
    requires Match(v, ".")
    ensures AllStars(v) || exists j :: 0 <= j < |v| && v[j] == '.' && AllStars(v[..j]) && AllStars(v[j + 1..])
  {
    assert "."[1..] == "";
    if v[0] == '*' {
      if Match(v[1..], ".") {
        MatchesDot(v[1..]);
        if j :| 0 <= j < |v[1..]| && v[1..][j] == '.' && AllStars(v[1..][..j]) && AllStars(v[1..][j + 1..]) {
          assert forall i :: 1 <= i < j + 1 ==> v[i] == v[1..][..j][i - 1];
          assert v[j + 2..] == v[1..][j + 1..];
          assert v[j + 1] == '.' && AllStars(v[..j + 1]);
        } else {
          assert forall i :: 1 <= i < |v| ==> v[i] == v[1..][i - 1];
        }
      } else {
        MatchesNothing(v);
      }
    } else {
      MatchesNothing(v[1..]);
      assert v[0] == '.' && AllStars(v[..0]) && v[0 + 1..] == v[1..];
    }
  }

  lemma {:induction false} MatchesNothing(v: string)
    ensures Match(v, "") <==> AllStars(v)
  {
    if v != "" {
      MatchesNothing(v[1..]);
      assert forall i :: 1 <= i < |v| ==> v[i] == v[1..][i - 1];
    }
  }

  /** A repository part that matches the repository with the stored path after it matches the repository, or has a dot
      for the path. */
  lemma AbsorbStored(r: string, repo: string)
    requires '/' !in r && Match(r, repo + "/.")
    ensures Match(r, repo) || StarThenDot(r)
  {
    hide Match, AllStars, StarThenDot;
    assert repo + "/." == repo + "/" + ".";
    var k := FindSlash(r, repo, ".");
    assert r[k] in r;
    var v := r[k..];
    MatchesDot(v);
    if AllStars(v) {
      OnlyStarsLeft(r, k, repo);
    } else {
      var j :| 0 <= j < |v| && v[j] == '.' && AllStars(v[..j]) && AllStars(v[j + 1..]);
      DotBeforeStars(r, k, j);
    }
  }

  lemma OnlyStarsLeft(r: string, k: nat, repo: string)
    requires k < |r| && AllStars(r[k..]) && Match(r[..k + 1], repo)
    ensures Match(r, repo)
  {
    hide Match;
    assert forall i :: k + 1 <= i < |r| ==> r[i] == r[k..][i - k];
    MatchesNothing(r[k + 1..]);
    MatchConcat(r[..k + 1], repo, r[k + 1..], "");
    assert r == r[..k + 1] + r[k + 1..] && repo + "" == repo;
  }

  lemma DotBeforeStars(r: string, k: nat, j: nat)
    requires k + j < |r| && r[k] == '*' && r[k + j] == '.' && AllStars(r[k..][..j]) && AllStars(r[k..][j + 1..])
    ensures StarThenDot(r)
  {
    hide TrimEndStars;
    assert j > 0 && r[k..][..j][j - 1] == r[k + j - 1];
    var u := r[..k + j + 1];
    assert r == u + r[k..][j + 1..];
    TrimEndOf(u, r[k..][j + 1..]);
    assert u[|u| - 2..] == [r[k + j - 1], r[k + j]];
  }

  // ----- Patterns that are exact -----

  lemma RootExact(p: string, a: Artifact)
    requires OneSlashPattern(p) && !RootOverMatches(p) && AtRoot(a)
    ensures Denotes(p, a) ==> Match(p, FullPath(a))
  {
    hide Match, Index, Count, RepoPart, AfterRepo, DotThenStar, StarThenDot, Loosened;
    OneSlashParts(p);
    IndexIsFirst(p, '/');
    var r, q := RepoPart(p), AfterRepo(p);
    OneSlashMatch(r, q, a.repo, a.name);
    StoredMatch(r, q, a.repo, a.name);
    assert StoredPath(a) == a.repo + "/" + ("./" + a.name);
    if Match(p, StoredPath(a)) {
      if Match(q, "./" + a.name) {
        AbsorbDot(q, a.name);
      }
      if Match(r, a.repo + "/.") {
        AbsorbStored(r, a.repo);
      }
      EmptyMatches(a.name);
    }
    if Loosened(p) && Match(r, a.repo) && TailMatches("*" + q, a) {
      LoosenedOneSlash(p);
      assert q[..1] == "*";
      assert StoredTail(a) == "./" + a.name;
      RootTail(q, a.name);
    }
  }

  lemma EmptyMatches(name: string)
    requires name != ""
    ensures !Match("", name) && !Match("", "./" + name)
  {
  }

  lemma RootTail(q: string, name: string)
    requires '/' !in q && HasPrefix(q, "*") && !DotThenStar(q)
    requires Match("*" + q, name) || Match("*" + q, "./" + name)
    ensures Match(q, name)
  {
    hide Match, DotThenStar;
    if Match("*" + q, name) {
      StarBeforeStar(q, name);
    } else {
      StarBeforeStar(q, "./" + name);
      AbsorbDot(q, name);
    }
  }

  /** When the slash was trimmed, the repository part ends in a star and the rest has another one. */
  lemma LoosenedOneSlash(p: string)
    requires OneSlashPattern(p)
    ensures Loosened(p) <==> HasSuffix(RepoPart(p), "*") && '*' in AfterRepo(p)
  {
    hide Index, Count, RepoPart, AfterRepo, NoDoubleSlash;
    OneSlashParts(p);
    SlashAfterRepo(p);
    var r, q := RepoPart(p), AfterRepo(p);
    assert r[|r| - 1..] == [r[|r| - 1]];
    assert p[|r| - 1] == r[|r| - 1];
    if r[|r| - 1] == '*' {
      assert p[|r| - 1..] == "*" + ("/" + q);
      SlashCount(q);
      StarCount(q);
    }
  }

  lemma SlashAfterRepo(p: string)
    requires '/' in p
    ensures Index(p, '/') == |RepoPart(p)|
  {
    hide Index;
    IndexIsFirst(p, '/');
  }

  lemma SlashCount(q: string)
    requires '/' !in q
    ensures Count("*" + ("/" + q), '/') == 1
  {
    CountParts("*", q);
    assert Count("*", '/') == 0;
  }

  lemma StarCount(q: string)
    ensures Count("*" + ("/" + q), '*') == 1 + Count(q, '*')
  {
    assert ("*" + ("/" + q))[1..] == "/" + q && ("/" + q)[1..] == q;
  }

  // ----- Patterns that over-match -----

  ghost predicate FalseHit(p: string, a: Artifact) {
    AtRoot(a) && Denotes(p, a) && !Match(p, FullPath(a))
  }

  lemma FloatingHit(p: string) returns (a: Artifact)
    requires OneSlashPattern(p)
    requires var q := AfterRepo(p); q != "" && HasSuffix(RepoPart(p), "*") && '*' in q && q[0] != '*'
    ensures FalseHit(p, a)
  {
    hide Match, Index, Count, RepoPart, AfterRepo, Fill, Loosened;
    OneSlashParts(p);
    LoosenedOneSlash(p);
    var r, q := RepoPart(p), AfterRepo(p);
    var name := [Other(q[0])] + Fill(q);
    a := Artifact(Fill(r), ".", name);
    FilledSegment(r);
    FilledSegment(q);
    MatchAll([Other(q[0])]);
    MatchConcat("*", [Other(q[0])], q, Fill(q));
    FirstDiffers(q, name);
    OneSlashMatch(r, q, a.repo, name);
  }

  lemma RootItem(repo: string, name: string)
    requires repo != "" && name != "" && '/' !in repo && '/' !in name
    ensures WellFormed(Artifact(repo, ".", name))
  {
    assert "."[..1] == "." && "."[0..] == ".";
  }

  lemma FilledSegment(q: string)
    requires '/' !in q
    ensures '/' !in Fill(q)
  {
    hide Match, Fill;
    assert forall i :: 0 <= i < |q| ==> q[i] in q;
  }

  lemma DotHit(p: string) returns (a: Artifact)
    requires OneSlashPattern(p) && DotThenStar(AfterRepo(p))
    ensures FalseHit(p, a)
  {
    hide Match, Index, Count, RepoPart, AfterRepo, Fill, AllStars;
    OneSlashParts(p);
    var r, q := RepoPart(p), AfterRepo(p);
    var j := TrimStarsAt(q);
    assert q[j] == q[j..][..2][0] && q[j + 1] == q[j..][..2][1];
    var rest := q[j + 1..];
    assert forall i :: 0 <= i < |rest| ==> rest[i] == q[j + 1 + i] && q[j + 1 + i] in q;
    var name := Fill(rest);
    a := Artifact(Fill(r), ".", name);
    FilledSegment(r);
    FilledSegment(rest);
    DotMatches(q, j);
    assert StoredPath(a) == a.repo + "/" + ("./" + name);
    StoredMatch(r, q, a.repo, name);
    OneSlashMatch(r, q, a.repo, name);
    DotsLeft(q, j);
    if Match(q, name) {
      MatchCount(q, name, '.');
    }
  }

  lemma DotMatches(q: string, j: nat)
    requires j < |q| - 1 && q[j] == '.' && q[j + 1] == '*' && AllStars(q[..j])
    ensures Match(q, "./" + Fill(q[j + 1..]))
  {
    hide Match, Fill, AllStars;
    var rest := q[j + 1..];
    var name := Fill(rest);
    MatchesNothing(q[..j]);
    MatchLiteral(".", ".");
    MatchConcat(q[..j], "", ".", ".");
    StarTakesSlash(rest, name);
    MatchConcat(q[..j] + ".", "" + ".", rest, "/" + name);
    assert q == q[..j] + "." + rest;
    assert "" + "." + ("/" + name) == "./" + name;
  }

  lemma StarTakesSlash(rest: string, name: string)
    requires rest != "" && rest[0] == '*' && Match(rest, name)
    ensures Match(rest, "/" + name)
  {
    assert ("/" + name)[1..] == name;
  }

  lemma DotsLeft(q: string, j: nat)
    requires j < |q| && q[j] == '.'
    ensures Count(Fill(q[j + 1..]), '.') < Count(q, '.')
  {
    hide Match, Fill, Count;
    FillCount(q[j + 1..], '.');
    assert q == q[..j] + ("." + q[j + 1..]);
    CountConcat(q[..j], "." + q[j + 1..], '.');
    CountConcat(".", q[j + 1..], '.');
    OneDot();
  }

  lemma OneDot()
    ensures Count(".", '.') == 1
  {
    assert "."[1..] == "";
  }

  lemma StarHit(p: string) returns (a: Artifact)
    requires OneSlashPattern(p) && StarThenDot(RepoPart(p)) && AfterRepo(p) != ""
    ensures FalseHit(p, a)
  {
    hide Match, Index, Count, RepoPart, AfterRepo, Fill, AllStars, NoDoubleSlash, WellFormed, Loosened;
    OneSlashParts(p);
    var r, q := RepoPart(p), AfterRepo(p);
    var end := TrimEndStarsAt(r);
    var j := end - 2;
    assert r[j] == r[..end][j..][0] && r[j + 1] == r[..end][j..][1];
    var front := r[..j + 1];
    assert forall i :: 0 <= i < |front| ==> front[i] == r[i] && r[i] in r;
    a := Artifact(Fill(front), ".", Fill(q));
    FilledSegment(front);
    FilledSegment(q);
    RootItem(Fill(front), Fill(q));
    MatchesBeforeDot(r, j);
    assert StoredPath(a) == a.repo + "/" + ("./" + a.name);
    StoredMatch(r, q, a.repo, a.name);
    OneSlashMatch(r, q, a.repo, a.name);
    DotsBefore(r, j + 1);
    if Match(r, a.repo) {
      MatchCount(r, a.repo, '.');
    }
  }

  lemma MatchesBeforeDot(r: string, j: nat)
    requires j < |r| - 1 && r[j] == '*' && r[j + 1] == '.' && AllStars(r[j + 2..])
    ensures Match(r, Fill(r[..j + 1]) + "/.")
  {
    hide Match, Fill, AllStars;
    var front, back := r[..j + 1], r[j + 2..];
    var repo := Fill(front);
    StarAtEnd(front, repo);
    MatchLiteral(".", ".");
    MatchConcat(front, repo + "/", ".", ".");
    MatchesNothing(back);
    MatchConcat(front + ".", repo + "/" + ".", back, "");
    assert r == front + "." + back;
    assert repo + "/" + "." + "" == repo + "/.";
  }

  lemma StarAtEnd(front: string, repo: string)
    requires front != "" && front[|front| - 1] == '*' && Match(front, repo)
    ensures Match(front, repo + "/")
  {
    hide Match;
    var u := front[..|front| - 1];
    assert front == u + "*";
    var i := MatchSplit(u, "*", repo);
    MatchAll(repo[i..] + "/");
    MatchConcat(u, repo[..i], "*", repo[i..] + "/");
    assert repo[..i] + (repo[i..] + "/") == repo + "/";
  }

  lemma DotsBefore(r: string, j: nat)
    requires j < |r| && r[j] == '.'
    ensures Count(Fill(r[..j]), '.') < Count(r, '.')
  {
    hide Match, Fill, Count;
    FillCount(r[..j], '.');
    assert r == r[..j] + ("." + r[j + 1..]);
    CountConcat(r[..j], "." + r[j + 1..], '.');
    CountConcat(".", r[j + 1..], '.');
    OneDot();
  }

  // ----- The exact condition -----

  lemma QueryOnRoot(p: string, a: Artifact)
    requires OneSlashPattern(p) && AtRoot(a)
    ensures Agree(p, a) <==> (Denotes(p, a) ==> Match(p, FullPath(a)))
  {
    hide Match, Count, Translate, AnyMatches, WellFormed, NoDoubleSlash;
    OneSlashParts(p);
    TranslationExact(p, a);
  }

  /** For every pattern with one slash: the whole query and the pattern agree on all items at a repository's root if
      and only if the pattern does not over-match there. */
  lemma AgreeOnRootIff(p: string)
    requires OneSlashPattern(p)
    ensures (forall a :: AtRoot(a) ==> Agree(p, a)) <==> !RootOverMatches(p)
  {
    hide Match, Count, Query, WellFormed, Denotes, FullPath, RepoPart, AfterRepo, DotThenStar, StarThenDot;
    if RootOverMatches(p) {
      var q := AfterRepo(p);
      var a: Artifact;
      if HasSuffix(RepoPart(p), "*") && '*' in q && q[0] != '*' {
        a := FloatingHit(p);
      } else if DotThenStar(q) {
        a := DotHit(p);
      } else {
        a := StarHit(p);
      }
      QueryOnRoot(p, a);
      assert AtRoot(a) && !Agree(p, a);
    } else {
      forall a | AtRoot(a)
        ensures Agree(p, a)
      {
        QueryOnRoot(p, a);
        RootExact(p, a);
      }
    }
  }

  /** With more slashes a pattern neither matches nor finds a root item. */
  lemma AgreeOnRootManySlashes(p: string, a: Artifact)
    requires Count(p, '/') >= 2 && !HasPrefix(p, "/") && AtRoot(a)
    ensures Agree(p, a)
  {
    hide Match, Count, Translate, WellFormed;
    RootHasOneSlash(a);
    NoTriples(a);
    if Match(p, FullPath(a)) {
      MatchCount(p, FullPath(a), '/');
    }
  }
}
