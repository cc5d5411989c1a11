/** Patterns with "//", which match no path: exactly when their triples find something all the same. */
module RepoPathDouble {
  import opened Text
  import opened Wildcard
  import opened RepoPathFiles
  import opened RepoPathQuery
  import opened RepoPathAgreement

  /** Some item's path and name are found by the triples of this part of a pattern. */
  predicate Reaches(q: string) {
    if LosesSlash(q) then NoDoubleSlash(DirPart(q)) && !HasPrefix(DirPart(q), "/")
    else q != "" && NoDoubleSlash(q) && !HasPrefix(q, "/") && !HasSuffix(q, "/")
  }

  lemma NameEndsTail(a: Artifact, t: string)
    requires WellFormed(a) && (t == Tail(a) || t == StoredTail(a))
    ensures t != "" && NoDoubleSlash(t) && !HasPrefix(t, "/") && !HasSuffix(t, "/")
  {
    assert a.name[0] in a.name && a.name[|a.name| - 1] in a.name;
    assert t[|t| - 1..] == [t[|t| - 1]] && t[..1] == [t[0]];
    if t == a.name {
      assert forall i :: 0 <= i < |t| ==> t[i] in a.name;
    } else {
      var n := |a.path|;
      assert a.path[..1] == [a.path[0]] && a.path[n - 1..] == [a.path[n - 1]];
      assert forall i :: 0 <= i < n ==> t[i] == a.path[i];
      assert forall i :: n < i < |t| ==> t[i] == a.name[i - n - 1] && a.name[i - n - 1] in a.name;
    }
  }

  lemma SlashFirst(q: string)
    ensures HasPrefix(q, "/") <==> q != "" && q[0] == '/'
  {
    assert q != "" ==> q[..1] == [q[0]];
  }

  lemma MatchedEnds(q: string, t: string)
    requires Match(q, t) && t != "" && NoDoubleSlash(t) && !HasPrefix(t, "/") && !HasSuffix(t, "/")
    ensures q != "" && NoDoubleSlash(q) && !HasPrefix(q, "/") && !HasSuffix(q, "/")
  {
    MatchKeepsDoubleSlash(q, t);
    SlashFirst(t);
    SlashFirst(q);
    if HasSuffix(q, "/") {
      MatchKeepsEnd(q, t);
    }
  }

  lemma FoundReaches(repo: string, q: string, a: Artifact)
    requires WellFormed(a) && Found(repo, q, a)
    ensures Reaches(q)
  {
    hide Match, LosesSlash, NoDoubleSlash, PathFilePairs, WellFormed, TripleMatches, DirPart, HasPrefix, HasSuffix;
    if !LosesSlash(q) {
      PairsExact(repo, q, a);
      var t := if Match(q, Tail(a)) then Tail(a) else StoredTail(a);
      NameEndsTail(a, t);
      MatchedEnds(q, t);
    } else if !NoDoubleSlash(DirPart(q)) || HasPrefix(DirPart(q), "/") {
      forall t | t in PathFilePairs(repo, q, true)
        ensures !TripleMatches(t, a)
      {
        NoTripleMatches(repo, q, a, t);
      }
    }
  }

  lemma ReachesFound(repo: string, q: string) returns (a: Artifact)
    requires repo != "" && '/' !in repo && Reaches(q)
    ensures WellFormed(a) && Found(repo, q, a)
  {
    if LosesSlash(q) {
      a := LosingWitness(repo, q);
    } else {
      a := PlainWitness(repo, q);
    }
  }

  lemma FilledRepo(repo: string)
    requires repo != "" && '/' !in repo
    ensures Fill(repo) != "" && '/' !in Fill(repo)
  {
    hide Match, Fill;
    assert forall i :: 0 <= i < |repo| ==> repo[i] in repo;
  }

  lemma LosingWitness(repo: string, q: string) returns (a: Artifact)
    requires repo != "" && '/' !in repo && Reaches(q) && LosesSlash(q)
    ensures WellFormed(a) && Found(repo, q, a)
  {
    hide Match, LosesSlash, PathFilePairs, Fill, DirPart, NamePart;
    var dir, name := DirPart(q), NamePart(q);
    var j := LosingTriple(repo, q);
    var t := RepoPathFile(repo, (dir + name)[..|dir| + j + 1], (dir + name)[|dir| + j..]);
    a := Artifact(Fill(repo), Fill(t.path), Fill(t.file));
    TripleIsPatterns(t, a);
    FilledRepo(repo);
    WitnessWellFormed(Fill(repo), dir, name, j, a);
  }

  lemma PlainWitness(repo: string, q: string) returns (a: Artifact)
    requires repo != "" && '/' !in repo && Reaches(q) && !LosesSlash(q)
    ensures WellFormed(a) && Found(repo, q, a)
  {
    hide Match, LosesSlash, PathFilePairs, Fill, SplitTail;
    FilledRepo(repo);
    FilledTail(q);
    a := SplitTail(Fill(repo), Fill(q));
    SplitTailStored(Fill(repo), Fill(q));
    PairsExact(repo, q, a);
  }

  lemma FilledTail(q: string)
    requires q != "" && NoDoubleSlash(q) && !HasPrefix(q, "/") && !HasSuffix(q, "/")
    ensures var t := Fill(q); t != "" && NoDoubleSlash(t) && t[0] != '/' && t[|t| - 1] != '/'
  {
    hide Match, Fill;
    assert q[..1] == [q[0]] && q[|q| - 1..] == [q[|q| - 1]];
  }

  lemma SplitTailStored(repo: string, tail: string)
    requires repo != "" && '/' !in repo
    requires tail != "" && NoDoubleSlash(tail) && tail[0] != '/' && tail[|tail| - 1] != '/'
    ensures var a := SplitTail(repo, tail);
            WellFormed(a) && (Tail(a) == tail || StoredTail(a) == tail) && a.repo == repo
  {
    hide LastIndex, WellFormed, NoDoubleSlash;
    LastIndexIsLast(tail, '/');
    var r := LastIndex(tail, '/');
    if r < 0 {
      NoDoubleDot();
      PathWellFormed(repo, ".", tail);
    } else {
      DirNoDouble(tail, r);
      PathWellFormed(repo, tail[..r], tail[r + 1..]);
      assert tail == tail[..r] + "/" + tail[r + 1..];
    }
  }

  lemma NoDoubleDot()
    ensures NoDoubleSlash(".")
  {
  }

  lemma DirNoDouble(tail: string, r: nat)
    requires 0 < r < |tail| && tail[r] == '/' && NoDoubleSlash(tail)
    ensures NoDoubleSlash(tail[..r]) && tail[r - 1] != '/'
  {
  }

  lemma PathWellFormed(repo: string, path: string, name: string)
    requires repo != "" && '/' !in repo && name != "" && '/' !in name
    requires path != "" && NoDoubleSlash(path) && path[0] != '/' && path[|path| - 1] != '/'
    ensures WellFormed(Artifact(repo, path, name))
  {
    assert path[..1] == [path[0]] && path[|path| - 1..] == [path[|path| - 1]];
  }

  // ----- Whole patterns -----

  /** The triples of some star of the repository part, or of the text after the last one, find something. */
  predicate FindsAnything(p: string) {
    || (exists k :: 0 <= k < |p| && InRepoPart(p, k) && Reaches(Loosen(p[k..])))
    || (!HasSuffix(RepoPart(p), "*") && Reaches(AfterRepo(p)))
  }

  ghost predicate FoundItem(p: string, a: Artifact)
    requires !HasPrefix(p, "/")
  {
    WellFormed(a) && AnyMatches(Translate(p, true).triples, a)
  }

  /** For every pattern: the recursive triples find some item if and only if one of its readings reaches something. */
  lemma FindsAnythingIff(p: string)
    requires p != "" && !HasPrefix(p, "/")
    ensures (exists a :: FoundItem(p, a)) <==> FindsAnything(p)
  {
    hide Match, Translate, Reaches, AnyMatches, PathFilePairs, RepoPart, AfterRepo, Loosen, WellFormed, InRepoPart;
    if a :| FoundItem(p, a) {
      TriplesByStar(p, true, a);
      if k: nat :| InRepoPart(p, k) && StarPairsMatch(p, k, true, a) {
        FoundReaches(p[..k + 1], Loosen(p[k..]), a);
      } else {
        FoundReaches(RepoPart(p), AfterRepo(p), a);
      }
    }
    if FindsAnything(p) {
      var a: Artifact;
      if k: nat :| k < |p| && InRepoPart(p, k) && Reaches(Loosen(p[k..])) {
        StarRepo(p, k);
        a := ReachesFound(p[..k + 1], Loosen(p[k..]));
        assert StarPairsMatch(p, k, true, a);
      } else {
        NonEmptyRepo(p);
        a := ReachesFound(RepoPart(p), AfterRepo(p));
      }
      TriplesByStar(p, true, a);
      assert FoundItem(p, a);
    }
  }

  lemma StarRepo(p: string, k: nat)
    requires InRepoPart(p, k)
    ensures p[..k + 1] != "" && '/' !in p[..k + 1]
  {
    hide Index;
    IndexIsFirst(p, '/');
    var slash := Index(p, '/');
    assert slash >= 0 ==> forall i :: 0 <= i < k + 1 ==> p[i] == p[..slash][i] && p[i] in p[..slash];
  }

  lemma NonEmptyRepo(p: string)
    requires p != "" && !HasPrefix(p, "/")
    ensures RepoPart(p) != "" && '/' !in RepoPart(p)
  {
    hide Index;
    IndexIsFirst(p, '/');
    assert p[..1] == [p[0]];
  }

  /** A pattern with "//" matches no path, so that its triples agree with it if and only if they find nothing. */
  lemma DoubleSlashAgreesIff(p: string)
    requires !NoDoubleSlash(p) && !HasPrefix(p, "/")
    ensures (forall a :: WellFormed(a) ==> TriplesAgree(p, a)) <==> !FindsAnything(p)
  {
    hide Match, Translate, AnyMatches, WellFormed, FullPath, FindsAnything;
    FindsAnythingIff(p);
    forall a | WellFormed(a)
      ensures !Match(p, FullPath(a))
    {
      FullPathNoDoubleSlash(a);
      if Match(p, FullPath(a)) {
        MatchKeepsDoubleSlash(p, FullPath(a));
      }
    }
    if FindsAnything(p) {
      var a :| FoundItem(p, a);
      assert WellFormed(a) && !TriplesAgree(p, a);
    } else {
      forall a | WellFormed(a)
        ensures TriplesAgree(p, a)
      {
        assert !FoundItem(p, a);
      }
    }
  }

  /** The pattern a* with two slashes and b after it finds ax/y/b: one slash was trimmed with the star, and the other
      floats. */
  lemma DoubleSlashExample()
    ensures WellFormed(Artifact("ax", "y", "b")) && !NoDoubleSlash("a*//b")
    ensures AnyMatches(Translate("a*//b", true).triples, Artifact("ax", "y", "b"))
  {
    hide AnyMatches, Translate, Match, Index, Count, LastIndex, WellFormed, PathFilePairs, LosesSlash;
    var p, a := "a*//b", Artifact("ax", "y", "b");
    DoubleExampleParts();
    TriplesByStar(p, true, a);
    PairsExact("a*", "*/b", a);
    assert p[..2] == "a*" && StarPairsMatch(p, 1, true, a);
  }

  lemma DoubleExampleParts()
    ensures WellFormed(Artifact("ax", "y", "b")) && !NoDoubleSlash("a*//b") && !HasPrefix("a*//b", "/")
    ensures InRepoPart("a*//b", 1) && Loosen("a*//b"[1..]) == "*/b" && !LosesSlash("*/b")
    ensures Match("a*", "ax") && TailMatches("*/b", Artifact("ax", "y", "b"))
  {
    hide Match, Index, Count, LastIndex, WellFormed, LosesSlash, Loosen;
    var p := "a*//b";
    assert p[2] == '/' && p[3] == '/' && p[..1] == "a";
    IndexAfter("a*", '/', "/b");
    assert "a*" + ['/'] + "/b" == p;
    assert p[1..] == "*//b";
    LoosenExample();
    NoStarName();
    PathWellFormed("ax", "y", "b");
    assert "y" + "/" + "b" == "y/b";
    ExampleMatched();
  }

  lemma LoosenExample()
    ensures Loosen("*//b") == "*/b"
  {
    hide Count;
    SlashesInExample();
    assert "*//b"[..2] == "*/" && "*//b"[2..] == "/b" && "/b"[..1] == "/" && "*" + "/b" == "*/b";
  }

  lemma SlashesInExample()
    ensures Count("*//b", '/') == 2
  {
    assert "*//b"[1..] == "//b" && "//b"[1..] == "/b" && "/b"[1..] == "b" && "b"[1..] == "";
    assert Count("b", '/') == 0;
    assert Count("/b", '/') == 1;
    assert Count("//b", '/') == 2;
  }

  lemma NoStarName()
    ensures !LosesSlash("*/b")
  {
    assert LastIndex("*/b", '/') == 1 by {
      assert "*/b"[..2] == "*/";
    }
    assert "*/b"[2..] == "b";
  }

  lemma ExampleMatched()
    ensures Match("a*", "ax") && Match("*/b", "y/b")
  {
  }
}
