/** What the generated triples mean as a query over artifacts, and how that compares with the wildcard pattern. */
module RepoPathQuery {
  import opened Text
  import opened Wildcard
  import opened RepoPathFiles

  /** Artifactory stores the three parts separately; an item at the root of a repository has path ".". */
  datatype Artifact = Artifact(repo: string, path: string, name: string)

  predicate NoDoubleSlash(s: string) {
    forall i :: 0 <= i < |s| - 1 && s[i] == '/' ==> s[i + 1] != '/'
  }

  ghost predicate WellFormed(a: Artifact) {
    && a.repo != "" && '/' !in a.repo
    && a.name != "" && '/' !in a.name
    && a.path != "" && !HasPrefix(a.path, "/") && !HasSuffix(a.path, "/") && NoDoubleSlash(a.path)
  }

  /** The path and name as one string: what follows the repository in the artifact's full path. */
  function Tail(a: Artifact): string {
    if a.path == "." then a.name else a.path + "/" + a.name
  }

  /** The same with the path column as it is stored, which shows the "." of a root item. */
  function StoredTail(a: Artifact): string {
    a.path + "/" + a.name
  }

  function FullPath(a: Artifact): string {
    a.repo + "/" + Tail(a)
  }

  function StoredPath(a: Artifact): string {
    a.repo + "/" + StoredTail(a)
  }

  predicate TailMatches(pattern: string, a: Artifact) {
    Match(pattern, Tail(a)) || Match(pattern, StoredTail(a))
  }

  /** A query value is compared with $match when it holds a star and for equality otherwise. */
  predicate ValueMatches(value: string, column: string) {
    if '*' in value then Match(value, column) else value == column
  }

  predicate TripleMatches(t: RepoPathFile, a: Artifact) {
    ValueMatches(t.repo, a.repo) && ValueMatches(t.path, a.path) && ValueMatches(t.file, a.name)
  }

  ghost predicate AnyMatches(ts: seq<RepoPathFile>, a: Artifact) {
    exists t :: t in ts && TripleMatches(t, a)
  }

  /** The whole query: some triple matches, and root items are admitted only for patterns with fewer than two
      slashes. */
  ghost predicate Query(p: string, recursive: bool, a: Artifact)
    requires !HasPrefix(p, "/")
  {
    var triples := Translate(p, recursive).triples;
    (|triples| == 0 || Count(p, '/') < 2 || a.path != ".") && AnyMatches(triples, a)
  }

  lemma ValueIsPattern(value: string, column: string)
    ensures ValueMatches(value, column) <==> Match(value, column)
  {
    if '*' !in value {
      MatchLiteral(value, column);
    }
  }

  lemma TripleIsPatterns(t: RepoPathFile, a: Artifact)
    ensures TripleMatches(t, a) <==> Match(t.repo, a.repo) && Match(t.path, a.path) && Match(t.file, a.name)
  {
    ValueIsPattern(t.repo, a.repo);
    ValueIsPattern(t.path, a.path);
    ValueIsPattern(t.file, a.name);
  }

  lemma AnyMatchesConcat(ts: seq<RepoPathFile>, us: seq<RepoPathFile>, a: Artifact)
    ensures AnyMatches(ts + us, a) <==> AnyMatches(ts, a) || AnyMatches(us, a)
  {
    if AnyMatches(ts, a) {
      var t :| t in ts && TripleMatches(t, a);
      assert t in ts + us;
    }
    if AnyMatches(us, a) {
      var t :| t in us && TripleMatches(t, a);
      assert t in ts + us;
    }
  }

  // ----- One repository pattern and one path-and-name pattern -----

  /** The name pattern's stars, put after a directory that already ends in a slash (or is empty), lose one slash of
      the pattern. */
  predicate LosesSlash(pattern: string) {
    var r := LastIndex(pattern, '/');
    r >= 0 && (r == 0 || pattern[r - 1] == '/') && '*' in pattern[r + 1..] && pattern[r + 1..] != "*"
  }

  lemma DirAndName(pattern: string)
    requires !LosesSlash(pattern) && '*' in NamePart(pattern) && NamePart(pattern) != "*"
    ensures pattern == WithSlash(DirPart(pattern)) + NamePart(pattern)
    ensures |WithSlash(DirPart(pattern))| == LastIndex(pattern, '/') + 1
  {
    hide LastIndex;
    LastIndexIsLast(pattern, '/');
  }

  lemma SplitAfter(d: string, left: string, right: string)
    ensures var p, k := d + (left + "*" + right), |d| + |left|;
            p[..k + 1] == d + left + "*" && p[k..] == "*" + right && p[k] == '*'
  {
  }

  /** Where a star triple comes from: the position of its star. */
  lemma StarTripleAt(repo: string, dir: string, name: string, i: nat) returns (k: nat)
    requires i + 1 < |Split(name, '*')|
    ensures k < |dir + name| && (dir + name)[k] == '*'
    ensures StarTriple(repo, dir, Split(name, '*'), i) == RepoPathFile(repo, (dir + name)[..k + 1], (dir + name)[k..])
  {
    hide Split, Join, Count;
    var parts := Split(name, '*');
    PartsAtStar(name, i);
    SplitAfter(dir, Join(parts[..i + 1], '*'), Join(parts[i + 1..], '*'));
    k := |dir| + |Join(parts[..i + 1], '*')|;
  }

  lemma StarIsSplit(name: string, k: nat) returns (i: nat)
    requires k < |name| && name[k] == '*'
    ensures i + 1 < |Split(name, '*')|
    ensures var parts := Split(name, '*');
            Join(parts[..i + 1], '*') == name[..k] && Join(parts[i + 1..], '*') == name[k + 1..]
  {
    var left, right := name[..k], name[k + 1..];
    assert name == left + "*" + right;
    var ls, rs := Split(left, '*'), Split(right, '*');
    JoinSplit(left, '*');
    JoinSplit(right, '*');
    JoinConcat(ls, rs, '*');
    SplitJoin(ls + rs, '*');
    i := |ls| - 1;
    assert (ls + rs)[..i + 1] == ls && (ls + rs)[i + 1..] == rs;
  }

  lemma TripleOfNameStar(repo: string, dir: string, name: string, j: nat) returns (i: nat)
    requires j < |name| && name[j] == '*'
    ensures i + 1 < |Split(name, '*')|
    ensures StarTriple(repo, dir, Split(name, '*'), i)
            == RepoPathFile(repo, (dir + name)[..|dir| + j + 1], (dir + name)[|dir| + j..])
  {
    hide Split, Join, Count;
    i := StarIsSplit(name, j);
    assert name == name[..j] + "*" + name[j + 1..];
    SplitAfter(dir, name[..j], name[j + 1..]);
  }

  /** Conversely every star of the name part has its triple. */
  lemma TripleOfStar(repo: string, pattern: string, k: nat)
    requires k < |pattern| && pattern[k] == '*' && k > LastIndex(pattern, '/')
    requires !LosesSlash(pattern) && NamePart(pattern) != "*"
    ensures RepoPathFile(repo, pattern[..k + 1], pattern[k..])
            in StarTriples(repo, WithSlash(DirPart(pattern)), NamePart(pattern))
  {
    hide LastIndex, Split, Join, Count, WithSlash, LosesSlash, DirPart, StarTriple, StarTriples;
    var j := k - (LastIndex(pattern, '/') + 1);
    assert NamePart(pattern)[j] == '*';
    DirAndName(pattern);
    var i := TripleOfNameStar(repo, WithSlash(DirPart(pattern)), NamePart(pattern), j);
    StarTripleListed(repo, WithSlash(DirPart(pattern)), NamePart(pattern), i);
  }

  lemma StarTripleListed(repo: string, dir: string, name: string, i: nat)
    requires i + 1 < |Split(name, '*')|
    ensures StarTriple(repo, dir, Split(name, '*'), i) in StarTriples(repo, dir, name)
  {
    hide Split, Join, Count;
    assert StarTriples(repo, dir, name)[i] == StarTriple(repo, dir, Split(name, '*'), i);
  }

  lemma NonRecursiveSound(repo: string, pattern: string, recursive: bool, a: Artifact, t: RepoPathFile)
    requires t in NonRecursiveTriples(repo, pattern, recursive) && TripleMatches(t, a)
    ensures Match(repo, a.repo) && TailMatches(pattern, a)
  {
    hide Match, LastIndex;
    TripleIsPatterns(t, a);
    LastIndexIsLast(pattern, '/');
    if '/' in pattern {
      var k := LastIndex(pattern, '/');
      assert SlashAt(pattern, k, a.path, a.name);
      MatchAcrossSlash(pattern, a.path, a.name);
    } else {
      MatchLiteral(".", a.path);
    }
  }

  lemma StarTriplesSound(repo: string, dir: string, name: string, a: Artifact, t: RepoPathFile)
    requires t in StarTriples(repo, dir, name) && TripleMatches(t, a)
    ensures '*' in name && Match(repo, a.repo) && Match(dir + name, StoredTail(a))
  {
    hide Match, Split, Join, Count;
    TripleIsPatterns(t, a);
    var all := StarTriples(repo, dir, name);
    var i :| 0 <= i < |all| && all[i] == t;
    var k := StarTripleAt(repo, dir, name, i);
    StarInName(name);
    assert SlashAt(dir + name, k, a.path, a.name);
    MatchAcrossSlash(dir + name, a.path, a.name);
  }

  lemma StarInName(name: string)
    ensures |Split(name, '*')| > 1 ==> '*' in name
  {
  }

  lemma PairsSound(repo: string, pattern: string, a: Artifact, t: RepoPathFile)
    requires !LosesSlash(pattern)
    requires t in PathFilePairs(repo, pattern, true) && TripleMatches(t, a)
    ensures Match(repo, a.repo) && TailMatches(pattern, a)
  {
    hide Match, LastIndex, StarTriples, NonRecursiveTriples, LosesSlash, WithSlash, DirPart, NamePart;
    TripleIsPatterns(t, a);
    if pattern == "*" {
      MatchAll(Tail(a));
    } else if t in NonRecursiveTriples(repo, pattern, true) {
      NonRecursiveSound(repo, pattern, true, a, t);
    } else if NamePart(pattern) == "*" {
      OnlyStarName(pattern);
      EverythingBelow(DirPart(pattern), a);
    } else {
      StarTriplesSound(repo, WithSlash(DirPart(pattern)), NamePart(pattern), a, t);
      DirAndName(pattern);
    }
  }

  /** A star at the end can take the slash before the name. */
  lemma EverythingBelow(dir: string, a: Artifact)
    requires Match(dir + "/*", a.path)
    ensures Match(dir + "/*", StoredTail(a))
  {
    hide Match;
    var p := dir + "/*";
    assert p[..|p| - 1] + "*" == p && p[|p| - 1..] == "*";
    assert SlashAt(p, |p| - 1, a.path, a.name) by {
      assert p[..|p|] == p;
      MatchAll(a.name);
    }
    MatchAcrossSlash(p, a.path, a.name);
  }

  lemma OnlyStarName(pattern: string)
    requires NamePart(pattern) == "*"
    ensures pattern == "*" || pattern == DirPart(pattern) + "/*"
  {
    hide LastIndex;
    LastIndexIsLast(pattern, '/');
  }

  /** Some triple of the repository and the pattern matches the item. */
  ghost predicate Found(repo: string, pattern: string, a: Artifact) {
    AnyMatches(PathFilePairs(repo, pattern, true), a)
  }

  lemma PairsCompleteStored(repo: string, pattern: string, a: Artifact)
    requires WellFormed(a) && !LosesSlash(pattern) && pattern != "*"
    requires Match(repo, a.repo) && Match(pattern, StoredTail(a))
    ensures Found(repo, pattern, a)
  {
    hide Match, LastIndex, LosesSlash, PathFilePairs, TripleMatches;
    var t: RepoPathFile;
    var k := FindSlash(pattern, a.path, a.name);
    if pattern[k] == '/' {
      if '/' in pattern[k + 1..] {
        MatchKeepsChar(pattern[k + 1..], a.name, '/');
      }
      t := PlainTriple(repo, pattern, k);
    } else {
      if '/' in pattern[k..] {
        MatchKeepsChar(pattern[k..], a.name, '/');
      }
      t := TripleAtStar(repo, pattern, k);
    }
    TripleIsPatterns(t, a);
  }

  /** The triple that splits the pattern at its last slash. */
  lemma PlainTriple(repo: string, pattern: string, k: nat) returns (t: RepoPathFile)
    requires k < |pattern| && pattern[k] == '/' && '/' !in pattern[k + 1..]
    ensures t == RepoPathFile(repo, pattern[..k], pattern[k + 1..]) && t in PathFilePairs(repo, pattern, true)
  {
    hide LastIndex, StarTriples;
    LastSlashUnique(pattern, k);
    t := RepoPathFile(repo, DirPart(pattern), NamePart(pattern));
    assert t in NonRecursiveTriples(repo, pattern, true);
  }

  /** The triple that splits the pattern at a star of its name. */
  lemma TripleAtStar(repo: string, pattern: string, k: nat) returns (t: RepoPathFile)
    requires k < |pattern| && pattern[k] == '*' && '/' !in pattern[k..] && !LosesSlash(pattern) && pattern != "*"
    ensures t == RepoPathFile(repo, pattern[..k + 1], pattern[k..]) && t in PathFilePairs(repo, pattern, true)
  {
    hide LastIndex, Split, Join, Count, LosesSlash, StarTriples;
    var path, name := DirPart(pattern), NamePart(pattern);
    LastIndexIsLast(pattern, '/');
    AfterLastSlash(pattern, k);
    t := RepoPathFile(repo, pattern[..k + 1], pattern[k..]);
    if name == "*" {
      assert pattern == path + "/*";
      assert |name| == 1 && k == |pattern| - 1 && pattern[..k + 1] == pattern && pattern[k..] == "*";
    } else {
      TripleOfStar(repo, pattern, k);
    }
  }

  lemma PairsCompleteRoot(repo: string, pattern: string, a: Artifact)
    requires WellFormed(a) && !LosesSlash(pattern) && pattern != "*"
    requires Match(repo, a.repo) && a.path == "." && Match(pattern, a.name)
    ensures Found(repo, pattern, a)
  {
    hide Match, LastIndex, Split, Join, Count, LosesSlash, StarTriples;
    var t: RepoPathFile;
    LastIndexIsLast(pattern, '/');
    if '/' in pattern {
      MatchKeepsChar(pattern, a.name, '/');
    }
    if HasPrefix(pattern, "*") {
      TripleOfStar(repo, pattern, 0);
      t := RepoPathFile(repo, "*", pattern);
      assert pattern[..1] == "*" && pattern[0..] == pattern;
      MatchAll(a.path);
    } else {
      t := RepoPathFile(repo, ".", pattern);
      assert t in NonRecursiveTriples(repo, pattern, true);
      MatchLiteral(".", ".");
    }
    TripleIsPatterns(t, a);
  }

  lemma PairsComplete(repo: string, pattern: string, a: Artifact)
    requires WellFormed(a) && !LosesSlash(pattern)
    requires Match(repo, a.repo) && TailMatches(pattern, a)
    ensures Found(repo, pattern, a)
  {
    hide Match, LosesSlash;
    if pattern == "*" {
      var t := RepoPathFile(repo, "*", "*");
      MatchAll(a.path);
      MatchAll(a.name);
      TripleIsPatterns(t, a);
      assert t in PathFilePairs(repo, pattern, true);
    } else if Match(pattern, StoredTail(a)) {
      PairsCompleteStored(repo, pattern, a);
    } else {
      PairsCompleteRoot(repo, pattern, a);
    }
  }

  lemma LastSlashUnique(p: string, k: nat)
    requires k < |p| && p[k] == '/' && '/' !in p[k + 1..]
    ensures LastIndex(p, '/') == k && DirPart(p) == p[..k] && NamePart(p) == p[k + 1..]
  {
    LastIndexIsLast(p, '/');
  }

  lemma AfterLastSlash(p: string, k: nat)
    requires k < |p| && '/' !in p[k..]
    ensures LastIndex(p, '/') < k
  {
    LastIndexIsLast(p, '/');
  }

  /** The triples of one repository pattern and one path-and-name pattern match an item exactly when the
      pattern matches its path and name; a root item may also be matched through its stored path ".". */
  lemma PairsExact(repo: string, pattern: string, a: Artifact)
    requires WellFormed(a) && !LosesSlash(pattern)
    ensures AnyMatches(PathFilePairs(repo, pattern, true), a) <==>
            Match(repo, a.repo) && TailMatches(pattern, a)
  {
    if AnyMatches(PathFilePairs(repo, pattern, true), a) {
      var t :| t in PathFilePairs(repo, pattern, true) && TripleMatches(t, a);
      PairsSound(repo, pattern, a, t);
    } else if Match(repo, a.repo) && TailMatches(pattern, a) {
      PairsComplete(repo, pattern, a);
    }
  }

  // ----- Whole patterns -----

  /** The star that ends the repository part had its slash trimmed, so the part after it floats. */
  predicate Loosened(p: string) {
    var slash := Index(p, '/');
    slash > 0 && p[slash - 1] == '*' && (Count(p[slash - 1..], '/') > 1 || Count(p[slash - 1..], '*') > 1)
  }

  /** The items a translated pattern stands for: those whose full path it matches; for a pattern without a slash
      also everything in a repository it matches; root items seen through their stored path "."; and, once the
      repository part's last star has lost its slash, items whose tail ends in the rest of the pattern. */
  predicate Denotes(p: string, a: Artifact) {
    || (Index(p, '/') < 0 && Match(p, a.repo))
    || Match(p, FullPath(a))
    || Match(p, StoredPath(a))
    || (Loosened(p) && Match(RepoPart(p), a.repo) && TailMatches("*" + AfterRepo(p), a))
  }

  lemma NoLoss(q: string)
    requires NoDoubleSlash(q) && !HasPrefix(q, "/")
    ensures !LosesSlash(q)
  {
    hide LastIndex;
    LastIndexIsLast(q, '/');
    var r := LastIndex(q, '/');
    assert q != "" ==> q[..1] == [q[0]];
    if r > 0 {
      assert q[..r][r - 1] == q[r - 1] != '/';
    }
  }

  lemma SuffixNoDouble(p: string, k: nat)
    requires k <= |p| && NoDoubleSlash(p)
    ensures NoDoubleSlash(p[k..]) && NoDoubleSlash("*" + p[k..])
    ensures k > 0 && p[k - 1] == '/' ==> !HasPrefix(p[k..], "/")
  {
    if 0 < k < |p| && p[k - 1] == '/' {
      assert p[k..][..1] == [p[k]];
    }
  }

  /** The pattern a repository star leaves for path and name. */
  function StarRest(p: string, k: nat): string
    requires k < |p|
  {
    if k + 1 == Index(p, '/') && Loosened(p) then "*" + AfterRepo(p) else p[k..]
  }

  predicate InRepoPart(p: string, k: nat) {
    k < |p| && p[k] == '*' && (Index(p, '/') < 0 || k < Index(p, '/'))
  }

  /** Trimming changes nothing unless the star is followed by a slash, which can only be the first one. */
  lemma LoosenKeeps(p: string, k: nat)
    requires InRepoPart(p, k) && k + 1 != Index(p, '/')
    ensures Loosen(p[k..]) == p[k..]
  {
    hide Index, Count;
    var q := p[k..];
    assert q[..1] == "*";
    IndexIsFirst(p, '/');
    if k + 1 < |p| {
      assert Index(p, '/') >= 0 ==> p[..Index(p, '/')][k + 1] == p[k + 1];
      assert q[..2][1] == p[k + 1] != '/';
    }
  }

  lemma LoosenTrims(p: string, k: nat)
    requires InRepoPart(p, k) && k + 1 == Index(p, '/')
    ensures p[k..] == "*/" + AfterRepo(p)
    ensures Loosened(p) ==> Loosen(p[k..]) == if HasPrefix(AfterRepo(p), "*") then AfterRepo(p) else "*" + AfterRepo(p)
    ensures !Loosened(p) ==> Loosen(p[k..]) == p[k..]
  {
    hide Index, Count;
    IndexIsFirst(p, '/');
    var q := p[k..];
    assert q == "*/" + p[k + 2..];
    assert q[..2] == "*/";
  }

  lemma FloatingStar(q: string, s: string)
    ensures HasPrefix(q, "*") ==> (Match(q, s) <==> Match("*" + q, s))
    ensures Match(q, s) ==> Match("*" + q, s)
    ensures Match("*/" + q, s) ==> Match("*" + q, s)
  {
    if Match(q, s) {
      MatchAll("");
      MatchConcat("*", "", q, s);
      assert "" + s == s;
    }
    if Match("*/" + q, s) {
      var i := MatchSplit("*/", q, s);
      MatchAll(s[..i]);
      MatchConcat("*", s[..i], q, s[i..]);
      assert s[..i] + s[i..] == s;
    }
    if HasPrefix(q, "*") && Match("*" + q, s) {
      assert q == "*" + q[1..];
      assert "*" + q == "**" + q[1..];
      var i := MatchSplit("**", q[1..], s);
      MatchAll(s[..i]);
      MatchConcat("*", s[..i], q[1..], s[i..]);
      assert s[..i] + s[i..] == s;
    }
  }

  predicate StarMatches(p: string, k: nat, a: Artifact)
  {
    k < |p| && Match(p[..k + 1], a.repo) && TailMatches(StarRest(p, k), a)
  }

  ghost predicate StarPairsMatch(p: string, k: nat, recursive: bool, a: Artifact) {
    k < |p| && AnyMatches(PathFilePairs(p[..k + 1], Loosen(p[k..]), recursive), a)
  }

  /** What the triples of one repository star match. */
  lemma RepoStarPairs(p: string, k: nat, a: Artifact)
    requires WellFormed(a) && NoDoubleSlash(p) && InRepoPart(p, k)
    ensures StarPairsMatch(p, k, true, a) <==> StarMatches(p, k, a)
  {
    hide Match, Index, LosesSlash, Loosen, Loosened, Tail, StoredTail, AnyMatches, PathFilePairs;
    SuffixNoDouble(p, k);
    assert p[k..][0] == '*';
    if k + 1 == Index(p, '/') {
      LoosenTrims(p, k);
      IndexIsFirst(p, '/');
      SuffixNoDouble(p, k + 2);
      FloatingStar(AfterRepo(p), Tail(a));
      FloatingStar(AfterRepo(p), StoredTail(a));
    } else {
      LoosenKeeps(p, k);
    }
    NoLoss(Loosen(p[k..]));
    PairsExact(p[..k + 1], Loosen(p[k..]), a);
  }

  lemma OwnPairs(p: string, a: Artifact)
    requires WellFormed(a) && NoDoubleSlash(p)
    ensures AnyMatches(PathFilePairs(RepoPart(p), AfterRepo(p), true), a) <==>
            Match(RepoPart(p), a.repo) && TailMatches(AfterRepo(p), a)
  {
    hide Match, Index, LosesSlash, LastIndex;
    IndexIsFirst(p, '/');
    SuffixNoDouble(p, Index(p, '/') + 1);
    NoLoss(AfterRepo(p));
    PairsExact(RepoPart(p), AfterRepo(p), a);
  }

  lemma {:induction false} RepoStarTriplesAny(p: string, stars: seq<nat>, recursive: bool, a: Artifact)
    requires forall i :: 0 <= i < |stars| ==> stars[i] < |p|
    ensures AnyMatches(RepoStarTriples(p, stars, recursive), a) <==>
            exists k :: k in stars && StarPairsMatch(p, k, recursive, a)
  {
    hide PathFilePairs, Loosen, AnyMatches;
    if stars == [] {
      NoTriples(a);
    } else {
      var init, k := stars[..|stars| - 1], stars[|stars| - 1];
      var pairs := PathFilePairs(p[..k + 1], Loosen(p[k..]), recursive);
      assert stars == init + [k];
      assert forall j :: j in stars <==> j in init || j == k;
      assert StarPairsMatch(p, k, recursive, a) <==> AnyMatches(pairs, a);
      RepoStarTriplesAny(p, init, recursive, a);
      AnyMatchesConcat(RepoStarTriples(p, init, recursive), pairs, a);
    }
  }

  lemma {:induction false} EveryStarListed(p: string, k: nat)
    requires k < |p| && p[k] == '*'
    ensures k in StarIndices(p)
  {
    if k < |p| - 1 {
      EveryStarListed(p[..|p| - 1], k);
    }
  }

  /** The stars listed for the repository part are exactly its stars. */
  lemma RepoStars(p: string, k: nat)
    ensures k in StarIndices(RepoPart(p)) <==> InRepoPart(p, k)
  {
    hide Index, StarIndices;
    IndexIsFirst(p, '/');
    if InRepoPart(p, k) {
      EveryStarListed(RepoPart(p), k);
    }
  }

  /** The triples of a whole pattern: those of each star of the repository part, and of the text after the last one. */
  lemma TriplesByStar(p: string, recursive: bool, a: Artifact)
    requires !HasPrefix(p, "/")
    ensures AnyMatches(Translate(p, recursive).triples, a) <==>
            || (exists k :: InRepoPart(p, k) && StarPairsMatch(p, k, recursive, a))
            || (!HasSuffix(RepoPart(p), "*") && AnyMatches(PathFilePairs(RepoPart(p), AfterRepo(p), recursive), a))
  {
    hide PathFilePairs, StarPairsMatch, RepoStarTriples, StarIndices, AnyMatches, RepoPart, AfterRepo, InRepoPart;
    var repo, stars := RepoPart(p), StarIndices(RepoPart(p));
    forall k: nat
      ensures k in stars <==> InRepoPart(p, k)
    {
      RepoStars(p, k);
    }
    RepoStarTriplesAny(p, stars, recursive, a);
    var own := if HasSuffix(repo, "*") then [] else PathFilePairs(repo, AfterRepo(p), recursive);
    AnyMatchesConcat(RepoStarTriples(p, stars, recursive), own, a);
    NoTriples(a);
    if stars == [] && HasSuffix(repo, "*") {
      EveryStarListed(repo, |repo| - 1);
    }
  }

  /** The triples of a whole pattern, read as conditions on the pattern itself. */
  lemma TriplesAsConditions(p: string, a: Artifact)
    requires WellFormed(a) && NoDoubleSlash(p) && !HasPrefix(p, "/")
    ensures AnyMatches(Translate(p, true).triples, a) <==>
            || (exists k :: InRepoPart(p, k) && StarMatches(p, k, a))
            || (!HasSuffix(RepoPart(p), "*") && Match(RepoPart(p), a.repo) && TailMatches(AfterRepo(p), a))
  {
    hide Match, PathFilePairs, StarMatches, StarPairsMatch, TailMatches, AnyMatches, Translate, RepoPart, AfterRepo,
         InRepoPart, WellFormed, NoDoubleSlash;
    TriplesByStar(p, true, a);
    OwnPairs(p, a);
    forall k: nat | InRepoPart(p, k)
      ensures StarPairsMatch(p, k, true, a) <==> StarMatches(p, k, a)
    {
      RepoStarPairs(p, k, a);
    }
  }

  lemma NoTriples(a: Artifact)
    ensures !AnyMatches([], a)
  {
  }

  lemma DenotationSound(p: string, a: Artifact)
    requires WellFormed(a) && NoDoubleSlash(p) && !HasPrefix(p, "/") && SomeTriple(p, a)
    ensures Denotes(p, a)
  {
    hide Match, StarIndices, Translate, AnyMatches, Loosened, Index, WellFormed, NoDoubleSlash, TailMatches,
         FullPath, StoredPath;
    IndexIsFirst(p, '/');
    if !HasSuffix(RepoPart(p), "*") && Match(RepoPart(p), a.repo) && TailMatches(AfterRepo(p), a) {
      if Index(p, '/') >= 0 {
        JoinAt(p, Index(p, '/'), a);
      }
    } else {
      var k: nat :| InRepoPart(p, k) && StarMatches(p, k, a);
      StarSound(p, k, a);
    }
  }

  lemma StarSound(p: string, k: nat, a: Artifact)
    requires InRepoPart(p, k) && StarMatches(p, k, a)
    ensures Denotes(p, a)
  {
    hide Match, Index, TailMatches, FullPath, StoredPath, Loosened;
    if !(k + 1 == Index(p, '/') && Loosened(p)) {
      JoinAt(p, k, a);
    }
  }

  lemma JoinAt(p: string, k: nat, a: Artifact)
    requires k < |p|
    requires (p[k] == '/' && Match(p[..k], a.repo) && TailMatches(p[k + 1..], a))
          || (p[k] == '*' && Match(p[..k + 1], a.repo) && TailMatches(p[k..], a))
    ensures Match(p, FullPath(a)) || Match(p, StoredPath(a))
  {
    hide Match, Tail, StoredTail;
    assert SlashAt(p, k, a.repo, Tail(a)) || SlashAt(p, k, a.repo, StoredTail(a));
    MatchAcrossSlash(p, a.repo, Tail(a));
    MatchAcrossSlash(p, a.repo, StoredTail(a));
  }

  ghost predicate SomeTriple(p: string, a: Artifact) {
    || (exists k :: InRepoPart(p, k) && StarMatches(p, k, a))
    || (!HasSuffix(RepoPart(p), "*") && Match(RepoPart(p), a.repo) && TailMatches(AfterRepo(p), a))
  }

  lemma LastRepoStar(p: string)
    requires HasSuffix(RepoPart(p), "*")
    ensures |RepoPart(p)| >= 1 && InRepoPart(p, |RepoPart(p)| - 1)
    ensures p[..|RepoPart(p)|] == RepoPart(p)
  {
    hide Index;
    var repo := RepoPart(p);
    assert repo[|repo| - 1] == '*';
  }

  lemma WholeRepo(p: string, a: Artifact)
    requires Index(p, '/') < 0 && Match(p, a.repo)
    ensures SomeTriple(p, a)
  {
    hide Match, Index;
    MatchAll(Tail(a));
    if HasSuffix(p, "*") {
      LastRepoStar(p);
      var k := |p| - 1;
      assert p[..k + 1] == p && p[k..] == "*";
      assert StarMatches(p, k, a);
    }
  }

  /** The literal first slash of the pattern separates the repository from the tail `t`. */
  lemma LiteralSlash(p: string, a: Artifact, t: string)
    requires WellFormed(a) && (t == Tail(a) || t == StoredTail(a)) && Index(p, '/') >= 0
    requires Match(RepoPart(p), a.repo) && Match(AfterRepo(p), t)
    ensures SomeTriple(p, a)
  {
    hide Match, Index, Count;
    if HasSuffix(RepoPart(p), "*") {
      LastRepoStar(p);
      var k := |RepoPart(p)| - 1;
      LoosenTrims(p, k);
      if Loosened(p) {
        FloatingStar(AfterRepo(p), t);
      } else {
        SpecificName(p, k, a, t);
      }
      assert StarMatches(p, k, a);
    }
  }

  /** A star, a slash and a name that holds neither: the slash is kept, and the triple finds the name at the root
      too. */
  lemma SpecificName(p: string, k: nat, a: Artifact, t: string)
    requires InRepoPart(p, k) && k + 1 == Index(p, '/') && !Loosened(p)
    requires WellFormed(a) && (t == Tail(a) || t == StoredTail(a)) && Match(AfterRepo(p), t)
    ensures Match(p[k..], StoredTail(a))
  {
    hide Match, Index, Count, Loosened;
    LoosenTrims(p, k);
    SpecificRest(p, k);
    MatchLiteral(AfterRepo(p), t);
    MatchAll(a.path);
    MatchLiteral("/", "/");
    MatchConcat("*", a.path, "/", "/");
    MatchLiteral(a.name, a.name);
    assert '/' in StoredTail(a) by {
      assert StoredTail(a)[|a.path|] == '/';
    }
    assert t == a.name;
    MatchConcat("*" + "/", a.path + "/", AfterRepo(p), t);
    assert "*" + "/" + AfterRepo(p) == p[k..] && a.path + "/" + t == StoredTail(a);
  }

  lemma SpecificRest(p: string, k: nat)
    requires InRepoPart(p, k) && k + 1 == Index(p, '/') && !Loosened(p)
    ensures '/' !in AfterRepo(p) && '*' !in AfterRepo(p)
  {
    hide Index, Count;
    LoosenTrims(p, k);
    CountConcat("*/", AfterRepo(p), '/');
    CountConcat("*/", AfterRepo(p), '*');
    TwoChars();
  }

  lemma TwoChars()
    ensures Count("*/", '/') == 1 && Count("*/", '*') == 1
  {
    assert "*/"[1..] == "/" && "/"[1..] == "";
    assert Count("/", '/') == 1 && Count("/", '*') == 0;
  }

  lemma PathComplete(p: string, a: Artifact, t: string)
    requires WellFormed(a) && (t == Tail(a) || t == StoredTail(a))
    requires Match(p, a.repo + "/" + t)
    ensures SomeTriple(p, a)
  {
    hide Match, Index, Tail, StoredTail;
    IndexIsFirst(p, '/');
    var k := FindSlash(p, a.repo, t);
    if p[k] == '/' {
      if '/' in p[..k] {
        MatchKeepsChar(p[..k], a.repo, '/');
      }
      FirstSlashUnique(p, k);
      LiteralSlash(p, a, t);
    } else {
      if '/' in p[..k + 1] {
        MatchKeepsChar(p[..k + 1], a.repo, '/');
      }
      BeforeFirstSlash(p, k);
      if k + 1 == Index(p, '/') {
        LoosenTrims(p, k);
        FloatingStar(AfterRepo(p), t);
      }
      assert StarMatches(p, k, a);
    }
  }

  lemma FirstSlashUnique(p: string, k: nat)
    requires k < |p| && p[k] == '/' && '/' !in p[..k]
    ensures Index(p, '/') == k && RepoPart(p) == p[..k] && AfterRepo(p) == p[k + 1..]
  {
    IndexIsFirst(p, '/');
  }

  lemma BeforeFirstSlash(p: string, k: nat)
    requires k < |p| && '/' !in p[..k + 1]
    ensures Index(p, '/') < 0 || k < Index(p, '/')
  {
    IndexIsFirst(p, '/');
    assert forall i :: 0 <= i <= k ==> p[..k + 1][i] == p[i];
  }

  lemma DenotationComplete(p: string, a: Artifact)
    requires WellFormed(a) && Denotes(p, a)
    ensures SomeTriple(p, a)
  {
    hide Match, Index, Tail, StoredTail, SomeTriple, Loosened, TailMatches;
    if Index(p, '/') < 0 && Match(p, a.repo) {
      WholeRepo(p, a);
    } else if Match(p, FullPath(a)) {
      PathComplete(p, a, Tail(a));
    } else if Match(p, StoredPath(a)) {
      PathComplete(p, a, StoredTail(a));
    } else {
      LoosenedComplete(p, a);
    }
  }

  lemma LoosenedComplete(p: string, a: Artifact)
    requires Loosened(p) && Match(RepoPart(p), a.repo) && TailMatches("*" + AfterRepo(p), a)
    ensures SomeTriple(p, a)
  {
    hide Match, Index, TailMatches, Count;
    var k := Index(p, '/') - 1;
    assert InRepoPart(p, k) && StarMatches(p, k, a);
  }

  // ----- Main results -----

  /** Exactness: for every pattern without "//" the recursive triples match exactly the items the pattern denotes. */
  lemma TranslationExact(p: string, a: Artifact)
    requires WellFormed(a) && NoDoubleSlash(p) && !HasPrefix(p, "/")
    ensures AnyMatches(Translate(p, true).triples, a) <==> Denotes(p, a)
  {
    hide Match, Index, Translate, AnyMatches, Denotes, TailMatches, WellFormed;
    TriplesAsConditions(p, a);
    if AnyMatches(Translate(p, true).triples, a) {
      DenotationSound(p, a);
    }
    if Denotes(p, a) {
      DenotationComplete(p, a);
    }
  }

  lemma {:induction false} MatchKeepsDoubleSlash(p: string, s: string)
    requires Match(p, s) && NoDoubleSlash(s)
    ensures NoDoubleSlash(p)
    decreases |p| + |s|
  {
    if p != "" {
      if s != "" {
        SuffixNoDouble(s, 1);
      }
      if p[0] == '*' && !Match(p[1..], s) {
        MatchKeepsDoubleSlash(p, s[1..]);
      } else if p[0] == '*' {
        MatchKeepsDoubleSlash(p[1..], s);
        assert p == "*" + p[1..];
      } else {
        MatchKeepsDoubleSlash(p[1..], s[1..]);
        if |p| > 1 && p[1] == '/' {
          assert p[1..][0] == '/' && s[1..][0] == '/';
        }
        assert forall i :: 1 <= i < |p| - 1 ==> p[i] == p[1..][i - 1] && p[i + 1] == p[1..][i];
      }
    }
  }

  lemma SlashBetween(x: string, y: string)
    requires NoDoubleSlash(x) && NoDoubleSlash(y) && !HasSuffix(x, "/") && !HasPrefix(y, "/")
    ensures NoDoubleSlash(x + "/" + y)
  {
    assert x != "" ==> x[|x| - 1..] == [x[|x| - 1]];
    assert y != "" ==> y[..1] == [y[0]];
  }

  lemma NoSlashAtAll(x: string)
    requires '/' !in x
    ensures NoDoubleSlash(x) && !HasPrefix(x, "/") && !HasSuffix(x, "/")
  {
    assert x != "" ==> x[0] in x && x[|x| - 1] in x;
  }

  lemma StartsAlike(x: string, y: string)
    requires x != "" && !HasPrefix(x, "/")
    ensures !HasPrefix(x + y, "/")
  {
    assert (x + y)[..1] == x[..1];
  }

  lemma FullPathNoDoubleSlash(a: Artifact)
    requires WellFormed(a)
    ensures NoDoubleSlash(FullPath(a)) && !HasPrefix(FullPath(a), "/")
  {
    hide NoDoubleSlash, HasPrefix, HasSuffix;
    NoSlashAtAll(a.repo);
    NoSlashAtAll(a.name);
    if a.path != "." {
      SlashBetween(a.path, a.name);
      StartsAlike(a.path, "/" + a.name);
      assert a.path + ("/" + a.name) == Tail(a);
    }
    SlashBetween(a.repo, Tail(a));
    StartsAlike(a.repo, "/" + Tail(a));
    assert a.repo + ("/" + Tail(a)) == FullPath(a);
  }

  lemma {:induction false} MatchCount(p: string, s: string, c: char)
    requires Match(p, s) && c != '*'
    ensures Count(p, c) <= Count(s, c)
    decreases |p| + |s|
  {
    if p != "" {
      if p[0] == '*' && !Match(p[1..], s) {
        MatchCount(p, s[1..], c);
      } else if p[0] == '*' {
        MatchCount(p[1..], s, c);
      } else {
        MatchCount(p[1..], s[1..], c);
      }
    }
  }

  lemma RootHasOneSlash(a: Artifact)
    requires WellFormed(a) && a.path == "."
    ensures Count(FullPath(a), '/') == 1
  {
    hide Count;
    CountConcat(a.repo, "/" + a.name, '/');
    assert FullPath(a) == a.repo + ("/" + a.name);
    CountSlash(a.name);
  }

  lemma CountSlash(name: string)
    ensures Count("/" + name, '/') == 1 + Count(name, '/')
  {
    assert ("/" + name)[1..] == name;
  }

  /** Completeness: whatever the pattern, every item whose full path it matches is found by the whole query,
      the rule on root items included; so is every item of a repository matched by a pattern without a slash. */
  lemma QueryComplete(p: string, a: Artifact)
    requires WellFormed(a) && !HasPrefix(p, "/")
    requires Match(p, FullPath(a)) || ('/' !in p && Match(p, a.repo))
    ensures Query(p, true, a)
  {
    hide Match, Translate, FullPath, WellFormed, AnyMatches;
    IndexIsFirst(p, '/');
    if Match(p, FullPath(a)) {
      FullPathNoDoubleSlash(a);
      MatchKeepsDoubleSlash(p, FullPath(a));
      MatchCount(p, FullPath(a), '/');
      if a.path == "." {
        RootHasOneSlash(a);
      }
    }
    TranslationExact(p, a);
  }

  lemma SingleRepoSplit(p: string, a: Artifact, t: string)
    requires WellFormed(a) && '*' !in RepoPart(p) && '/' in p
    ensures Match(p, a.repo + "/" + t) <==> Match(RepoPart(p), a.repo) && Match(AfterRepo(p), t)
  {
    hide Match, Index;
    IndexIsFirst(p, '/');
    if Match(p, a.repo + "/" + t) {
      var k := FindSlash(p, a.repo, t);
      if p[k] == '/' {
        if '/' in p[..k] {
          MatchKeepsChar(p[..k], a.repo, '/');
        }
        FirstSlashUnique(p, k);
      } else {
        if '/' in p[..k + 1] {
          MatchKeepsChar(p[..k + 1], a.repo, '/');
        }
        BeforeFirstSlash(p, k);
        StarInRepoPart(p, k);
      }
    }
    if Match(RepoPart(p), a.repo) && Match(AfterRepo(p), t) {
      assert SlashAt(p, Index(p, '/'), a.repo, t);
      MatchAcrossSlash(p, a.repo, t);
    }
  }

  lemma StarInRepoPart(p: string, k: nat)
    requires InRepoPart(p, k)
    ensures '*' in RepoPart(p)
  {
    hide Index;
    IndexIsFirst(p, '/');
    assert RepoPart(p)[k] == '*';
  }

  lemma SingleRepoTriples(p: string)
    requires '*' !in RepoPart(p) && !HasPrefix(p, "/")
    ensures Translate(p, true).triples == PathFilePairs(RepoPart(p), AfterRepo(p), true)
  {
    hide RepoPart, AfterRepo, PathFilePairs;
    var stars := StarIndices(RepoPart(p));
    assert forall i :: 0 <= i < |stars| ==> RepoPart(p)[stars[i]] in RepoPart(p);
  }

  ghost predicate BelowRoot(a: Artifact) {
    WellFormed(a) && a.path != "."
  }

  /** The recursive triples find the item if and only if the pattern matches its full path. */
  ghost predicate TriplesAgree(p: string, a: Artifact)
    requires !HasPrefix(p, "/")
  {
    AnyMatches(Translate(p, true).triples, a) <==> Match(p, FullPath(a))
  }

  /** The slash lost in front of the name's stars makes the triples match paths the pattern, which holds "//", cannot
      match. */
  predicate OverMatches(p: string) {
    var q := AfterRepo(p);
    LosesSlash(q) && NoDoubleSlash(DirPart(q)) && !HasPrefix(DirPart(q), "/")
  }

  lemma LosesSlashIsDouble(p: string)
    requires '/' in p && LosesSlash(AfterRepo(p))
    ensures !NoDoubleSlash(p)
  {
    hide LastIndex, Index;
    IndexIsFirst(p, '/');
    var s, q := Index(p, '/'), AfterRepo(p);
    LastIndexIsLast(q, '/');
    var r := LastIndex(q, '/');
    if r == 0 {
      assert p[s] == '/' && p[s + 1] == '/';
    } else {
      assert q[..r][r - 1] == q[r - 1] == '/';
      assert p[s + r] == '/' && p[s + r + 1] == '/';
    }
  }

  /** A string that the pattern matches: one `x` for each star. */
  function Fill(p: string): (s: string)
    ensures |s| == |p|
    ensures forall i :: 0 <= i < |p| ==> s[i] == if p[i] == '*' then 'x' else p[i]
    ensures Match(p, s)
  {
    if p == "" then ""
    else
      var rest := Fill(p[1..]);
      var s := [if p[0] == '*' then 'x' else p[0]] + rest;
      assert s[1..] == rest;
      s
  }

  /** What the definition says of the directory and the name. */
  lemma LostSlash(q: string)
    requires LosesSlash(q)
    ensures WithSlash(DirPart(q)) == DirPart(q) && '/' !in NamePart(q)
    ensures '*' in NamePart(q) && NamePart(q) != "*" && q != "*"
  {
    hide LastIndex;
    LastIndexIsLast(q, '/');
    var dir := DirPart(q);
    assert dir != "" ==> dir[|dir| - 1..] == [dir[|dir| - 1]];
  }

  /** The triple of the name's first star. */
  lemma LosingTriple(repo: string, q: string) returns (j: nat)
    requires LosesSlash(q)
    ensures j < |NamePart(q)| && NamePart(q)[j] == '*' && '/' !in NamePart(q)
    ensures var dir, name := DirPart(q), NamePart(q);
            RepoPathFile(repo, (dir + name)[..|dir| + j + 1], (dir + name)[|dir| + j..]) in PathFilePairs(repo, q, true)
  {
    hide Index, LastIndex, Split, Join, Count, StarTriple, StarTriples, LosesSlash, DirPart, NamePart, WithSlash,
         NonRecursiveTriples;
    LostSlash(q);
    var dir, name := DirPart(q), NamePart(q);
    IndexIsFirst(name, '*');
    j := Index(name, '*');
    var i := TripleOfNameStar(repo, dir, name, j);
    StarTripleListed(repo, dir, name, i);
  }

  lemma RepoPartIsName(p: string)
    requires '/' in p && !HasPrefix(p, "/")
    ensures RepoPart(p) != "" && '/' !in RepoPart(p)
  {
    hide Index;
    IndexIsFirst(p, '/');
    assert p[..1] == [p[0]];
  }

  lemma OverMatchWitness(p: string) returns (a: Artifact)
    requires '*' !in RepoPart(p) && '/' in p && !HasPrefix(p, "/") && OverMatches(p)
    ensures BelowRoot(a) && AnyMatches(Translate(p, true).triples, a) && !Match(p, FullPath(a))
  {
    hide Match, Index, LastIndex, Translate, LosesSlash, PathFilePairs, Fill, DirPart, NamePart, RepoPart, AfterRepo,
         WellFormed, NoDoubleSlash, FullPath, TripleMatches;
    var q := AfterRepo(p);
    var dir, name := DirPart(q), NamePart(q);
    var j := LosingTriple(RepoPart(p), q);
    var t := RepoPathFile(RepoPart(p), (dir + name)[..|dir| + j + 1], (dir + name)[|dir| + j..]);
    a := Artifact(RepoPart(p), Fill(t.path), Fill(t.file));
    SingleRepoTriples(p);
    MatchLiteral(RepoPart(p), RepoPart(p));
    TripleIsPatterns(t, a);
    RepoPartIsName(p);
    WitnessWellFormed(RepoPart(p), dir, name, j, a);
    LosesSlashIsDouble(p);
    FullPathNoDoubleSlash(a);
    if Match(p, FullPath(a)) {
      MatchKeepsDoubleSlash(p, FullPath(a));
    }
  }

  lemma WitnessWellFormed(repo: string, dir: string, name: string, j: nat, a: Artifact)
    requires j < |name| && name[j] == '*' && '/' !in name && repo != "" && '/' !in repo
    requires NoDoubleSlash(dir) && !HasPrefix(dir, "/")
    requires a == Artifact(repo, Fill((dir + name)[..|dir| + j + 1]), Fill((dir + name)[|dir| + j..]))
    ensures BelowRoot(a)
  {
    hide Match, Fill;
    var n := (dir + name)[|dir| + j..];
    assert n == name[j..];
    assert '/' !in a.name by {
      assert forall i :: 0 <= i < |n| ==> n[i] in name;
    }
    WitnessPath(dir, name, j);
  }

  lemma WitnessPath(dir: string, name: string, j: nat)
    requires j < |name| && name[j] == '*' && '/' !in name
    requires NoDoubleSlash(dir) && !HasPrefix(dir, "/")
    ensures var path := Fill((dir + name)[..|dir| + j + 1]);
            path != "" && path != "." && !HasPrefix(path, "/") && !HasSuffix(path, "/") && NoDoubleSlash(path)
  {
    hide Match, Fill;
    var s := (dir + name)[..|dir| + j + 1];
    var path := Fill(s);
    assert forall i :: 0 <= i < |dir| ==> s[i] == dir[i];
    assert forall i :: |dir| <= i < |s| ==> s[i] == name[i - |dir|] && s[i] in name;
    assert path[|path| - 1] == 'x' && path[|path| - 1..] == "x";
    assert path[..1] == [path[0]] && (dir != "" ==> dir[..1] == [dir[0]]);
  }

  lemma NoTripleMatches(repo: string, q: string, a: Artifact, t: RepoPathFile)
    requires WellFormed(a) && LosesSlash(q) && (!NoDoubleSlash(DirPart(q)) || HasPrefix(DirPart(q), "/"))
    requires t in PathFilePairs(repo, q, true)
    ensures !TripleMatches(t, a)
  {
    hide LastIndex, Split, Join, Count, StarTriple;
    TripleIsPatterns(t, a);
    var dir := DirPart(q);
    LastIndexIsLast(q, '/');
    if Match(t.path, a.path) {
      if t in NonRecursiveTriples(repo, q, true) {
        DirNotEndingInSlash(dir, a);
      } else {
        hide Match;
        var parts := Split(NamePart(q), '*');
        var i :| 0 <= i < |parts| - 1 && t == StarTriple(repo, dir, parts, i);
        StarPathStart(repo, dir, parts, i);
        var cut := MatchSplit(dir, Join(parts[..i + 1], '*') + "*", a.path);
        BadStart(dir, a, cut);
      }
    }
  }

  lemma StarPathStart(repo: string, dir: string, parts: seq<string>, i: nat)
    requires i + 1 < |parts|
    ensures StarTriple(repo, dir, parts, i).path == dir + (Join(parts[..i + 1], '*') + "*")
  {
  }

  lemma BadStart(dir: string, a: Artifact, cut: nat)
    requires WellFormed(a) && cut <= |a.path| && Match(dir, a.path[..cut])
    ensures NoDoubleSlash(dir) && !HasPrefix(dir, "/")
  {
    assert forall i :: 0 <= i < cut ==> a.path[..cut][i] == a.path[i];
    MatchKeepsDoubleSlash(dir, a.path[..cut]);
    assert a.path[..1] == [a.path[0]];
    assert dir != "" ==> dir[..1] == [dir[0]];
  }

  lemma DirNotEndingInSlash(dir: string, a: Artifact)
    requires WellFormed(a) && Match(dir, a.path)
    ensures dir != "" && !HasSuffix(dir, "/")
  {
    if HasSuffix(dir, "/") {
      EndsInSlash(dir, a.path);
    }
  }

  lemma EndsInSlash(dir: string, s: string)
    requires HasSuffix(dir, "/") && Match(dir, s)
    ensures HasSuffix(s, "/")
  {
    var d := dir[..|dir| - 1];
    assert dir == d + "/";
    var i := MatchSplit(d, "/", s);
    MatchLiteral("/", s[i..]);
  }

  /** For a pattern with one repository, the triples are exact on items below the root if and only if
      the pattern does not lose a slash in front of its name's stars. */
  lemma SingleRepoExactIff(p: string)
    requires Translate(p, true).Translated? && Translate(p, true).singleRepo && '/' in p
    ensures (forall a :: BelowRoot(a) ==> TriplesAgree(p, a)) <==> !OverMatches(p)
  {
    SingleRepoNoStar(p);
    hide Match, Index, Translate, AnyMatches, FullPath, WellFormed, OverMatches, PathFilePairs, LosesSlash, RepoPart,
         AfterRepo;
    if OverMatches(p) {
      var a := OverMatchWitness(p);
      assert !TriplesAgree(p, a);
    } else {
      SingleRepoTriples(p);
      forall a | BelowRoot(a)
        ensures TriplesAgree(p, a)
      {
        SingleRepoSplit(p, a, Tail(a));
        if !LosesSlash(AfterRepo(p)) {
          PairsExact(RepoPart(p), AfterRepo(p), a);
        } else {
          NothingFound(p, a);
        }
      }
    }
  }

  lemma SingleRepoNoStar(p: string)
    requires Translate(p, true).Translated? && Translate(p, true).singleRepo
    ensures '*' !in RepoPart(p)
  {
    hide RepoPart, StarIndices;
    if '*' in RepoPart(p) {
      var k :| 0 <= k < |RepoPart(p)| && RepoPart(p)[k] == '*';
      EveryStarListed(RepoPart(p), k);
    }
  }

  /** A pattern that loses a slash without over-matching neither matches nor finds anything. */
  lemma NothingFound(p: string, a: Artifact)
    requires '/' in p && LosesSlash(AfterRepo(p)) && !OverMatches(p) && WellFormed(a)
    ensures !Match(p, FullPath(a)) && !AnyMatches(PathFilePairs(RepoPart(p), AfterRepo(p), true), a)
  {
    hide Match, Index, WellFormed, PathFilePairs, LosesSlash, TripleMatches;
    LosesSlashIsDouble(p);
    FullPathNoDoubleSlash(a);
    if Match(p, FullPath(a)) {
      MatchKeepsDoubleSlash(p, FullPath(a));
    }
    forall t | t in PathFilePairs(RepoPart(p), AfterRepo(p), true)
      ensures !TripleMatches(t, a)
    {
      NoTripleMatches(RepoPart(p), AfterRepo(p), a, t);
    }
  }

  // ----- Non-recursive translation -----

  lemma PairsWithin(repo: string, pattern: string, a: Artifact, t: RepoPathFile)
    requires t in PathFilePairs(repo, pattern, false) && TripleMatches(t, a)
    ensures Found(repo, pattern, a)
  {
    var u: RepoPathFile;
    hide Match, LastIndex, Split, Join, Count, StarTriples;
    TripleIsPatterns(t, a);
    MatchAll(a.path);
    if pattern == "*" {
      u := RepoPathFile(repo, "*", "*");
    } else if LastIndex(pattern, '/') < 0 && HasPrefix(pattern, "*") {
      assert pattern[0] == '*' && pattern[..1] == "*" && pattern[0..] == pattern;
      TripleOfStar(repo, pattern, 0);
      u := RepoPathFile(repo, "*", pattern);
    } else {
      u := t;
      assert u in NonRecursiveTriples(repo, pattern, true);
    }
    TripleIsPatterns(u, a);
  }

  lemma {:induction false} StarTriplesWithin(p: string, stars: seq<nat>, a: Artifact)
    requires forall i :: 0 <= i < |stars| ==> stars[i] < |p|
    requires AnyMatches(RepoStarTriples(p, stars, false), a)
    ensures AnyMatches(RepoStarTriples(p, stars, true), a)
  {
    hide PathFilePairs, Loosen, TripleMatches;
    if stars != [] {
      var init, k := stars[..|stars| - 1], stars[|stars| - 1];
      var repo, rest := p[..k + 1], Loosen(p[k..]);
      AnyMatchesConcat(RepoStarTriples(p, init, false), PathFilePairs(repo, rest, false), a);
      AnyMatchesConcat(RepoStarTriples(p, init, true), PathFilePairs(repo, rest, true), a);
      if AnyMatches(PathFilePairs(repo, rest, false), a) {
        var t :| t in PathFilePairs(repo, rest, false) && TripleMatches(t, a);
        PairsWithin(repo, rest, a, t);
      } else {
        StarTriplesWithin(p, init, a);
      }
    }
  }

  /** A non-recursive search never finds an item that the recursive search with the same pattern misses. */
  lemma NonRecursiveWithinRecursive(p: string, a: Artifact)
    requires !HasPrefix(p, "/") && AnyMatches(Translate(p, false).triples, a)
    ensures AnyMatches(Translate(p, true).triples, a)
  {
    hide RepoPart, AfterRepo, PathFilePairs, RepoStarTriples, StarIndices, TripleMatches;
    var repo, rest, stars := RepoPart(p), AfterRepo(p), StarIndices(RepoPart(p));
    if stars != [] {
      var ownF := if HasSuffix(repo, "*") then [] else PathFilePairs(repo, rest, false);
      var ownT := if HasSuffix(repo, "*") then [] else PathFilePairs(repo, rest, true);
      AnyMatchesConcat(RepoStarTriples(p, stars, false), ownF, a);
      AnyMatchesConcat(RepoStarTriples(p, stars, true), ownT, a);
      if AnyMatches(RepoStarTriples(p, stars, false), a) {
        StarTriplesWithin(p, stars, a);
        return;
      }
    }
    var t :| t in PathFilePairs(repo, rest, false) && TripleMatches(t, a);
    PairsWithin(repo, rest, a, t);
  }
}
