/** What the triples of a non-recursive search match (artifactory/services/utils/repopathfile.go). */
module RepoPathDirect {
  import opened Text
  import opened Wildcard
  import opened RepoPathFiles
  import opened RepoPathQuery

  /** The directory part stands for the path and the name part for the name; without a directory only root items are
      meant. */
  predicate DirectMatch(pattern: string, a: Artifact) {
    if '/' in pattern then Match(DirPart(pattern), a.path) && Match(NamePart(pattern), a.name)
    else a.path == "." && Match(pattern, a.name)
  }

  lemma DirectPairs(repo: string, pattern: string, a: Artifact)
    ensures AnyMatches(PathFilePairs(repo, pattern, false), a) <==> Match(repo, a.repo) && DirectMatch(pattern, a)
  {
    hide Match, LastIndex, TripleMatches, DirPart, NamePart;
    LastIndexIsLast(pattern, '/');
    MatchLiteral(".", a.path);
    if '/' in pattern {
      OneTriple(RepoPathFile(repo, DirPart(pattern), NamePart(pattern)), a);
    } else {
      OneTriple(RepoPathFile(repo, ".", pattern), a);
    }
  }

  lemma OneTriple(t: RepoPathFile, a: Artifact)
    ensures AnyMatches([t], a) <==> Match(t.repo, a.repo) && Match(t.path, a.path) && Match(t.file, a.name)
  {
    hide Match, TripleMatches;
    TripleIsPatterns(t, a);
    assert t in [t];
  }

  /** One star of the repository part, which may also swallow the slash after the repository. */
  predicate DirectStar(p: string, k: nat, a: Artifact) {
    InRepoPart(p, k) && Match(p[..k + 1], a.repo) && DirectMatch(Loosen(p[k..]), a)
  }

  /** The items a pattern stands for in a non-recursive search. */
  predicate DirectDenotes(p: string, a: Artifact) {
    || (exists k :: 0 <= k < |p| && DirectStar(p, k, a))
    || (!HasSuffix(RepoPart(p), "*") && Match(RepoPart(p), a.repo) && DirectMatch(AfterRepo(p), a))
  }

  /** For every pattern and every item: the non-recursive triples match exactly the items that the pattern stands
      for. */
  lemma DirectExact(p: string, a: Artifact)
    requires !HasPrefix(p, "/")
    ensures AnyMatches(Translate(p, false).triples, a) <==> DirectDenotes(p, a)
  {
    hide Match, Translate, AnyMatches, DirectMatch, PathFilePairs, RepoPart, AfterRepo, Loosen;
    TriplesByStar(p, false, a);
    DirectPairs(RepoPart(p), AfterRepo(p), a);
    forall k: nat
      ensures InRepoPart(p, k) && StarPairsMatch(p, k, false, a) <==> k < |p| && DirectStar(p, k, a)
    {
      if InRepoPart(p, k) {
        DirectPairs(p[..k + 1], Loosen(p[k..]), a);
      }
    }
  }

  /** With one repository: the pattern's three parts against the three columns. */
  lemma DirectSingleRepo(p: string, a: Artifact)
    requires Translate(p, false).Translated? && Translate(p, false).singleRepo && '/' in p
    ensures AnyMatches(Translate(p, false).triples, a) <==> RepoPart(p) == a.repo && DirectMatch(AfterRepo(p), a)
  {
    hide Match, Index, AnyMatches, DirectMatch, PathFilePairs, AfterRepo;
    NoStarInRepo(p);
    DirectExact(p, a);
    MatchLiteral(RepoPart(p), a.repo);
  }

  lemma NoStarInRepo(p: string)
    requires Translate(p, false).Translated? && Translate(p, false).singleRepo
    ensures '*' !in RepoPart(p) && !HasSuffix(RepoPart(p), "*") && forall k: nat :: !InRepoPart(p, k)
  {
    hide RepoPart, StarIndices, Index, AfterRepo, PathFilePairs, RepoStarTriples;
    forall k: nat
      ensures !InRepoPart(p, k)
    {
      RepoStars(p, k);
    }
    var repo := RepoPart(p);
    assert repo != "" ==> repo[|repo| - 1..] == [repo[|repo| - 1]];
    if '*' in repo {
      var k :| 0 <= k < |repo| && repo[k] == '*';
      EveryStarListed(repo, k);
    }
  }
}
