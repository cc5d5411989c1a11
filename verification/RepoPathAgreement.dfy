/** Exactly for which patterns the translated query finds what the pattern matches, stars in the repository part
    included. */
module RepoPathAgreement {
  import opened Text
  import opened Wildcard
  import opened RepoPathFiles
  import opened RepoPathQuery

  /** What follows the repository floats: its slash was trimmed, no star of its own absorbs that, and items can end
      like it. */
  predicate Floats(p: string) {
    Loosened(p) && !HasPrefix(AfterRepo(p), "*") && !HasSuffix(p, "/")
  }

  lemma PatternParts(p: string)
    requires '/' in p && !HasPrefix(p, "/")
    ensures p == RepoPart(p) + "/" + AfterRepo(p) && RepoPart(p) != "" && '/' !in RepoPart(p)
    ensures HasSuffix(p, "/") <==> AfterRepo(p) == "" || HasSuffix(AfterRepo(p), "/")
  {
    hide Index;
    IndexIsFirst(p, '/');
    var slash, q := Index(p, '/'), AfterRepo(p);
    assert p[..1] == [p[0]];
    assert p[|p| - 1..] == [p[|p| - 1]];
    assert q != "" ==> q[|q| - 1..] == [q[|q| - 1]] && q[|q| - 1] == p[|p| - 1];
  }

  // ----- A second star before a star changes nothing -----

  lemma {:induction false} DoubleStar(r: string, s: string)
    requires Match("**" + r, s)
    ensures Match("*" + r, s)
  {
    var p := "**" + r;
    assert p[1..] == "*" + r;
    if s != "" && Match(p, s[1..]) {
      DoubleStar(r, s[1..]);
    }
  }

  lemma StarBeforeStar(q: string, s: string)
    requires HasPrefix(q, "*") && Match("*" + q, s)
    ensures Match(q, s)
  {
    hide Match;
    assert q == "*" + q[1..];
    assert "*" + q == "**" + q[1..];
    DoubleStar(q[1..], s);
  }

  lemma MatchKeepsEnd(q: string, s: string)
    requires HasSuffix(q, "/") && Match(q, s)
    ensures HasSuffix(s, "/")
  {
    hide Match;
    assert q == q[..|q| - 1] + "/";
    var i := MatchSplit(q[..|q| - 1], "/", s);
    MatchLiteral("/", s[i..]);
  }

  // ----- Patterns that do not float -----

  lemma NotFloating(p: string, a: Artifact)
    requires '/' in p && !HasPrefix(p, "/") && Loosened(p) && !Floats(p) && WellFormed(a)
    requires Match(RepoPart(p), a.repo) && Match("*" + AfterRepo(p), Tail(a))
    ensures Match(p, FullPath(a))
  {
    hide Match, Index, Count, RepoPart, AfterRepo, Loosened;
    var q := AfterRepo(p);
    PatternParts(p);
    if HasPrefix(q, "*") {
      StarBeforeStar(q, Tail(a));
      MatchWhole(p, a.repo, Tail(a));
    } else {
      LoosenedHasRest(p);
      assert HasSuffix("*" + q, "/");
      MatchKeepsEnd("*" + q, Tail(a));
      TailEnd(a);
    }
  }

  lemma TailEnd(a: Artifact)
    requires WellFormed(a)
    ensures !HasSuffix(Tail(a), "/")
  {
    var t := Tail(a);
    assert t[|t| - 1..] == [t[|t| - 1]] && t[|t| - 1] == a.name[|a.name| - 1] && t[|t| - 1] in a.name;
  }

  lemma LoosenedHasRest(p: string)
    requires Loosened(p)
    ensures AfterRepo(p) != ""
  {
    hide Count, Index;
    if AfterRepo(p) == "" {
      EndsAtSlash(p);
    }
  }

  lemma EndsAtSlash(p: string)
    requires Index(p, '/') > 0 && AfterRepo(p) == ""
    ensures !Loosened(p)
  {
    hide Index;
    var slash := Index(p, '/');
    IndexIsFirst(p, '/');
    var c := p[slash - 1];
    assert p[slash - 1..] == [c, '/'] && [c, '/'][1..] == ['/'] && ['/'][1..] == "";
    assert Count(['/'], '/') == 1 && Count(['/'], '*') == 0;
    assert c != '/' ==> Count([c, '/'], '/') == 1 && Count([c, '/'], '*') <= 1;
    assert c == p[..slash][slash - 1] && c in p[..slash];
  }

  lemma MatchWhole(p: string, repo: string, tail: string)
    requires '/' in p && !HasPrefix(p, "/") && Match(RepoPart(p), repo) && Match(AfterRepo(p), tail)
    ensures Match(p, repo + "/" + tail)
  {
    hide Match, RepoPart, AfterRepo;
    PatternParts(p);
    MatchLiteral("/", "/");
    MatchConcat(RepoPart(p), repo, "/", "/");
    MatchConcat(RepoPart(p) + "/", repo + "/", AfterRepo(p), tail);
  }

  // ----- Patterns that float -----

  /** The artifact of a repository whose path and name are the tail. */
  function SplitTail(repo: string, tail: string): Artifact {
    var r := LastIndex(tail, '/');
    if r < 0 then Artifact(repo, ".", tail) else Artifact(repo, tail[..r], tail[r + 1..])
  }

  lemma SplitTailWellFormed(repo: string, tail: string)
    requires repo != "" && '/' !in repo && '/' in tail && NoDoubleSlash(tail)
    requires tail[0] != '/' && tail[0] != '.' && tail[|tail| - 1] != '/'
    ensures WellFormed(SplitTail(repo, tail)) && SplitTail(repo, tail).path != "."
            && Tail(SplitTail(repo, tail)) == tail
  {
    hide LastIndex;
    LastIndexIsLast(tail, '/');
    var a, r := SplitTail(repo, tail), LastIndex(tail, '/');
    assert a.path[0] == tail[0] && a.path[..1] == [a.path[0]];
    assert tail[r - 1] != '/' && a.path[|a.path| - 1..] == [tail[r - 1]];
    assert tail == a.path + "/" + a.name;
  }

  function Other(c: char): (z: char)
    ensures z != c && z != '/' && z != '.' && z != '*'
  {
    if c == 'y' then 'w' else 'y'
  }

  /** A tail that ends like the rest of the pattern, after two more segments' starts that differ from it. */
  function FloatTail(q: string): string
    requires q != ""
  {
    [Other(q[0]), '/', Other(q[0])] + Fill(q)
  }

  lemma FloatTailFacts(q: string)
    requires q != "" && q[0] != '/' && q[|q| - 1] != '/' && NoDoubleSlash(q)
    ensures var t := FloatTail(q);
            '/' in t && NoDoubleSlash(t) && t[0] != '/' && t[0] != '.' && t[|t| - 1] != '/' && Match("*" + q, t)
  {
    hide Match, Fill, NoDoubleSlash;
    var t, f := FloatTail(q), Fill(q);
    assert t[1] == '/';
    FloatTailNoDouble(q);
    MatchAll(t[..3]);
    assert t == t[..3] + f;
    MatchConcat("*", t[..3], q, f);
  }

  lemma FloatTailNoDouble(q: string)
    requires q != "" && NoDoubleSlash(q)
    ensures NoDoubleSlash(FloatTail(q))
  {
    hide Fill;
    var t, f := FloatTail(q), Fill(q);
    assert forall i :: 3 <= i < |t| ==> t[i] == f[i - 3];
  }

  lemma {:induction false} FillCount(p: string, c: char)
    requires c != '*' && c != 'x'
    ensures Count(Fill(p), c) == Count(p, c)
  {
    hide Match;
    if p != "" {
      FillCount(p[1..], c);
      assert Fill(p)[1..] == Fill(p[1..]) by {
        assert forall i :: 0 <= i < |p| - 1 ==> Fill(p)[1..][i] == Fill(p[1..])[i];
      }
    }
  }

  /** Wherever the pattern's first slash might fall in the path, the rest cannot match. */
  lemma FloatTailUnmatched(p: string, repo: string)
    requires '/' in p && !HasPrefix(p, "/") && '/' !in repo
    requires var q := AfterRepo(p); q != "" && q[0] != '*'
    ensures !Match(p, repo + "/" + FloatTail(AfterRepo(p)))
  {
    hide Match, RepoPart, AfterRepo, Fill;
    var q := AfterRepo(p);
    var t := FloatTail(q);
    var s := repo + "/" + t;
    PatternParts(p);
    if Match(p, s) {
      var i := SlashOfMatch(RepoPart(p), q, s);
      RestUnmatched(q, repo, i);
    }
  }

  lemma SlashOfMatch(r: string, q: string, s: string) returns (i: nat)
    requires Match(r + "/" + q, s)
    ensures i < |s| && s[i] == '/' && Match(r, s[..i]) && Match(q, s[i + 1..])
  {
    assert r + "/" + q == r + ("/" + q);
    i := MatchSplit(r, "/" + q, s);
    assert ("/" + q)[1..] == q;
    assert s[i..][1..] == s[i + 1..];
  }

  lemma RestUnmatched(q: string, repo: string, i: nat)
    requires q != "" && q[0] != '*' && '/' !in repo
    requires var s := repo + "/" + FloatTail(q); i < |s| && s[i] == '/'
    ensures !Match(q, (repo + "/" + FloatTail(q))[i + 1..])
  {
    hide Match, Fill;
    AfterSlash(repo, Other(q[0]), Fill(q), i);
    if i <= |repo| + 2 {
      FirstDiffers(q, (repo + "/" + FloatTail(q))[i + 1..]);
    } else {
      LateRest(q, i - |repo| - 4);
    }
  }

  /** What follows a slash of the path: one of the two inserted segments, or what follows a slash of the filled
      pattern. */
  lemma AfterSlash(repo: string, z: char, f: string, i: nat)
    requires '/' !in repo && z != '/'
    requires var s := repo + "/" + ([z, '/', z] + f); i < |s| && s[i] == '/'
    ensures var rest := (repo + "/" + ([z, '/', z] + f))[i + 1..];
            if i <= |repo| + 2 then rest != "" && rest[0] == z
            else 0 <= i - |repo| - 4 < |f| && f[i - |repo| - 4] == '/' && rest == f[i - |repo| - 3..]
  {
    var n := |repo|;
    var s := repo + "/" + ([z, '/', z] + f);
    assert forall j :: 0 <= j < n ==> s[j] == repo[j] && repo[j] in repo;
    assert s[n + 1] == z && s[n + 2] == '/' && s[n + 3] == z;
    assert forall j :: n + 4 <= j < |s| ==> s[j] == f[j - n - 4];
  }

  lemma FirstDiffers(q: string, rest: string)
    requires q != "" && q[0] != '*' && rest != "" && rest[0] != q[0]
    ensures !Match(q, rest)
  {
  }

  lemma LateRest(q: string, j: nat)
    requires j < |Fill(q)| && Fill(q)[j] == '/'
    ensures !Match(q, Fill(q)[j + 1..])
  {
    hide Match, Fill;
    SuffixCount(Fill(q), j);
    FillCount(q, '/');
    if Match(q, Fill(q)[j + 1..]) {
      MatchCount(q, Fill(q)[j + 1..], '/');
    }
  }

  lemma SuffixCount(f: string, j: nat)
    requires j < |f| && f[j] == '/'
    ensures Count(f[j + 1..], '/') < Count(f, '/')
  {
    hide Count;
    assert f == f[..j] + ("/" + f[j + 1..]);
    CountConcat(f[..j], "/" + f[j + 1..], '/');
    CountConcat("/", f[j + 1..], '/');
    CountOneSlash();
  }

  lemma CountOneSlash()
    ensures Count("/", '/') == 1
  {
    assert "/"[1..] == "";
  }

  /** A pattern that floats finds an artifact that it does not match. */
  lemma FloatWitness(p: string) returns (a: Artifact)
    requires '/' in p && !HasPrefix(p, "/") && NoDoubleSlash(p) && Floats(p)
    ensures WellFormed(a) && a.path != "." && AnyMatches(Translate(p, true).triples, a) && !Match(p, FullPath(a))
  {
    hide Match, Index, Translate, AnyMatches, WellFormed, RepoPart, AfterRepo, Fill, FloatTail, Loosened;
    var r, q := RepoPart(p), AfterRepo(p);
    PatternParts(p);
    LoosenedHasRest(p);
    assert q[..1] == [q[0]] && q[|q| - 1..] == [q[|q| - 1]];
    assert p[|r|] == '/' && p[|r| + 1] == q[0];
    assert NoDoubleSlash(q) by {
      assert forall i :: 0 <= i < |q| ==> p[|r| + 1 + i] == q[i];
    }
    FloatTailFacts(q);
    assert '/' !in Fill(r) by {
      assert forall i :: 0 <= i < |r| ==> r[i] in r;
    }
    SplitTailWellFormed(Fill(r), FloatTail(q));
    a := SplitTail(Fill(r), FloatTail(q));
    FloatTailUnmatched(p, Fill(r));
    TranslationExact(p, a);
  }

  lemma AgreesBelowRoot(p: string, a: Artifact)
    requires '/' in p && !HasPrefix(p, "/") && NoDoubleSlash(p) && !Floats(p) && BelowRoot(a)
    ensures TriplesAgree(p, a)
  {
    hide Match, Index, Translate, AnyMatches, WellFormed, RepoPart, AfterRepo, Loosened, Floats;
    IndexIsFirst(p, '/');
    TranslationExact(p, a);
    if Loosened(p) && Match(RepoPart(p), a.repo) && TailMatches("*" + AfterRepo(p), a) {
      NotFloating(p, a);
    }
  }

  /** For every pattern with a slash and without "//": the query and the pattern agree on all items below the root if
      and only if the pattern does not float. */
  lemma AgreeBelowRootIff(p: string)
    requires '/' in p && !HasPrefix(p, "/") && NoDoubleSlash(p)
    ensures (forall a :: BelowRoot(a) ==> TriplesAgree(p, a)) <==> !Floats(p)
  {
    hide Match, Translate, AnyMatches, FullPath, WellFormed, Floats;
    if Floats(p) {
      var a := FloatWitness(p);
      assert BelowRoot(a) && !TriplesAgree(p, a);
    } else {
      forall a | BelowRoot(a)
        ensures TriplesAgree(p, a)
      {
        AgreesBelowRoot(p, a);
      }
    }
  }

  /** The pattern a*b with a slash before b finds ax/yb and ax/y/yb, which it does not match. */
  lemma FloatExample(a: Artifact)
    requires a == Artifact("ax", ".", "yb") || a == Artifact("ax", "y", "yb")
    ensures AnyMatches(Translate("a*/b*", true).triples, a) && !Match("a*/b*", FullPath(a))
  {
    hide AnyMatches, Translate, Match, Index, Count, LastIndex, RepoPart, AfterRepo, WellFormed, FullPath, Tail,
         StoredTail, Loosened,
         NoDoubleSlash, StoredPath;
    ExampleParts();
    ExampleLoosened();
    ExampleMatches();
    ExampleItem(a);
    assert "*" + "b*" == "*b*";
    TranslationExact("a*/b*", a);
  }

  lemma ExampleItem(a: Artifact)
    requires a == Artifact("ax", ".", "yb") || a == Artifact("ax", "y", "yb")
    ensures WellFormed(a) && NoDoubleSlash("a*/b*") && !HasPrefix("a*/b*", "/")
    ensures Tail(a) == if a.path == "." then "yb" else "y/yb"
    ensures FullPath(a) == if a.path == "." then "ax/yb" else "ax/y/yb"
  {
    hide WellFormed;
    ShortItem(a);
    assert "a*/b*"[0] == 'a' && "a*/b*"[..1] == "a";
    if a.path == "." {
      assert a.repo + "/" + "yb" == "ax/yb";
    } else {
      assert "y" + "/" + "yb" == "y/yb";
      assert "ax" + "/" + "y/yb" == "ax/y/yb";
    }
  }

  lemma ShortItem(a: Artifact)
    requires |a.path| == 1 && a.path[0] != '/' && a.repo == "ax" && a.name == "yb"
    ensures WellFormed(a)
  {
    assert a.path[..1] == a.path && a.path[0..] == a.path;
    assert forall i :: 0 <= i < 2 ==> "ax"[i] != '/' && "yb"[i] != '/';
  }

  lemma ExampleLoosened()
    ensures Loosened("a*/b*")
  {
    hide Index, Count, RepoPart, AfterRepo;
    ExampleParts();
    StarsInExample();
    assert "a*/b*"[1..] == "*/b*";
  }

  lemma ExampleParts()
    ensures Index("a*/b*", '/') == 2 && RepoPart("a*/b*") == "a*" && AfterRepo("a*/b*") == "b*"
  {
    hide Index;
    IndexAfter("a*", '/', "b*");
    assert "a*" + ['/'] + "b*" == "a*/b*";
  }

  lemma StarsInExample()
    ensures Count("*/b*", '*') == 2
  {
    assert "*/b*"[1..] == "/b*" && "/b*"[1..] == "b*" && "b*"[1..] == "*" && "*"[1..] == "";
    assert Count("*", '*') == 1;
    assert Count("b*", '*') == 1;
    assert Count("/b*", '*') == 1;
  }

  lemma ExampleMatches()
    ensures Match("a*", "ax") && Match("*b*", "yb") && Match("*b*", "y/yb")
    ensures !Match("a*/b*", "ax/yb") && !Match("a*/b*", "ax/y/yb")
  {
    hide Match;
    ExampleFound();
    ExampleNotMatched();
  }

  lemma ExampleFound()
    ensures Match("a*", "ax") && Match("*b*", "yb") && Match("*b*", "y/yb")
  {
  }

  lemma ExampleNotMatched()
    ensures !Match("a*/b*", "ax/yb") && !Match("a*/b*", "ax/y/yb")
  {
  }
}
