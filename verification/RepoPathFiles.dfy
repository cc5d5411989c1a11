/** Translation of a wildcard pattern over `repo/path/name` to (repo, path, name) triples
    (artifactory/services/utils/repopathfile.go), and what the triples mean as a query. */
module RepoPathFiles {
  import opened Text

  datatype RepoPathFile = RepoPathFile(repo: string, path: string, file: string)

  datatype Translation =
    | BadPattern
    | Translated(triples: seq<RepoPathFile>, singleRepo: bool)

  // ----- The specification functions -----

  function DefaultPath(recursive: bool): string {
    if recursive then "*" else "."
  }

  /** The directory part of a pattern, without the slash that ends it. */
  function DirPart(pattern: string): string {
    if LastIndex(pattern, '/') < 0 then "" else pattern[..LastIndex(pattern, '/')]
  }

  function NamePart(pattern: string): string {
    pattern[LastIndex(pattern, '/') + 1..]
  }

  function NonRecursiveTriples(repo: string, pattern: string, recursive: bool): seq<RepoPathFile> {
    if LastIndex(pattern, '/') < 0 then
      if recursive && HasPrefix(pattern, "*") then [] else [RepoPathFile(repo, ".", pattern)]
    else
      [RepoPathFile(repo, DirPart(pattern), NamePart(pattern))]
  }

  /** The directory prefix put before the name's pieces: no slash is added to an empty path or after a slash. */
  function WithSlash(path: string): string {
    if path != "" && !HasSuffix(path, "/") then path + "/" else path
  }

  /** One triple for the `i`-th star of `name`: that star is where the last slash falls. */
  function StarTriple(repo: string, dir: string, parts: seq<string>, i: nat): RepoPathFile
    requires i + 1 < |parts|
  {
    RepoPathFile(repo, dir + Join(parts[..i + 1], '*') + "*", "*" + Join(parts[i + 1..], '*'))
  }

  function StarTriples(repo: string, dir: string, name: string): (triples: seq<RepoPathFile>)
    ensures |triples| == |Split(name, '*')| - 1
  {
    var parts := Split(name, '*');
    seq(|parts| - 1, i requires 0 <= i < |parts| - 1 => StarTriple(repo, dir, parts, i))
  }

  function PathFilePairs(repo: string, pattern: string, recursive: bool): seq<RepoPathFile> {
    if pattern == "*" then [RepoPathFile(repo, DefaultPath(recursive), "*")]
    else if !recursive then NonRecursiveTriples(repo, pattern, recursive)
    else if NamePart(pattern) == "*" then
      NonRecursiveTriples(repo, pattern, recursive) + [RepoPathFile(repo, DirPart(pattern) + "/*", "*")]
    else
      NonRecursiveTriples(repo, pattern, recursive)
      + StarTriples(repo, WithSlash(DirPart(pattern)), NamePart(pattern))
  }

  /** Positions of the stars of `p`, in increasing order. */
  function StarIndices(p: string): (stars: seq<nat>)
    ensures forall i :: 0 <= i < |stars| ==> stars[i] < |p| && p[stars[i]] == '*'
  {
    if p == "" then []
    else
      var n := |p| - 1;
      StarIndices(p[..n]) + if p[n] == '*' then [n] else []
  }

  /** The part of a pattern that can only describe a repository name. */
  function RepoPart(p: string): (r: string)
    ensures |r| <= |p|
  {
    if Index(p, '/') < 0 then p else p[..Index(p, '/')]
  }

  function AfterRepo(p: string): string {
    if Index(p, '/') < 0 then "*" else p[Index(p, '/') + 1..]
  }

  /** The pattern left for path and name when a repository star, kept at its head, may swallow the first slash. */
  function Loosen(newPattern: string): string {
    if Count(newPattern, '/') > 1 || Count(newPattern, '*') > 1 then
      var trimmed := TrimPrefix(newPattern, "*/");
      if HasPrefix(trimmed, "*") then trimmed else "*" + trimmed
    else newPattern
  }

  function RepoStarTriples(p: string, stars: seq<nat>, recursive: bool): seq<RepoPathFile>
    requires forall i :: 0 <= i < |stars| ==> stars[i] < |p|
  {
    if stars == [] then []
    else
      var k := stars[|stars| - 1];
      RepoStarTriples(p, stars[..|stars| - 1], recursive)
      + PathFilePairs(p[..k + 1], Loosen(p[k..]), recursive)
  }

  function Translate(p: string, recursive: bool): (t: Translation)
    ensures t.BadPattern? <==> HasPrefix(p, "/")
  {
    var stars := StarIndices(RepoPart(p));
    if HasPrefix(p, "/") then BadPattern
    else if stars == [] then
      Translated(PathFilePairs(RepoPart(p), AfterRepo(p), recursive), true)
    else
      var own := if HasSuffix(RepoPart(p), "*") then [] else PathFilePairs(RepoPart(p), AfterRepo(p), recursive);
      Translated(RepoStarTriples(p, stars, recursive) + own, false)
  }

  // ----- The code -----

  lemma PathFilePairsCases(repo: string, pattern: string, recursive: bool)
    ensures PathFilePairs(repo, pattern, recursive) == (
              var plain := NonRecursiveTriples(repo, pattern, recursive);
              if pattern == "*" then [RepoPathFile(repo, DefaultPath(recursive), "*")]
              else if !recursive then plain
              else if NamePart(pattern) == "*" then plain + [RepoPathFile(repo, DirPart(pattern) + "/*", "*")]
              else plain + StarTriples(repo, WithSlash(DirPart(pattern)), NamePart(pattern)))
  {
    hide NonRecursiveTriples, StarTriples, DirPart, NamePart;
  }

  lemma NameHasNoSlash(pattern: string)
    ensures '/' !in NamePart(pattern)
  {
    LastIndexIsLast(pattern, '/');
  }

  method CreatePathFilePairs(repo: string, pattern: string, recursive: bool) returns (triples: seq<RepoPathFile>)
    ensures triples == PathFilePairs(repo, pattern, recursive)
  {
    hide LastIndex, Split, Join, Count, StarTriples, NonRecursiveTriples, PathFilePairs, DirPart, NamePart;
    PathFilePairsCases(repo, pattern, recursive);
    if pattern == "*" {
      return [RepoPathFile(repo, DefaultPath(recursive), "*")];
    }
    var path, name := DirPart(pattern), NamePart(pattern);
    NameHasNoSlash(pattern);
    triples := NonRecursiveTriples(repo, pattern, recursive);
    if !recursive {
      return;
    }
    if name == "*" {
      return triples + [RepoPathFile(repo, path + "/*", "*")];
    }
    var nameSplit := Split(name, '*');
    ghost var dir := WithSlash(path);
    ghost var first := triples;
    var i := 0;
    while i < |nameSplit| - 1
      invariant 0 <= i <= |nameSplit| - 1
      invariant WithSlash(path) == dir
      invariant triples == first + StarTriples(repo, dir, name)[..i]
    {
      var str := SlashAfterStar(nameSplit, i);
      SplitStarPath(name, nameSplit, i, str);
      var slashSplit := Split(str, '/');
      var filePath, fileName := slashSplit[0], slashSplit[1];
      if fileName == "" {
        fileName := "*";
      }
      if path != "" && !HasSuffix(path, "/") {
        path := path + "/";
      }
      triples := triples + [RepoPathFile(repo, path + filePath, fileName)];
      StarTriplesGrow(repo, dir, name, i);
      i := i + 1;
    }
    assert StarTriples(repo, dir, name)[..i] == StarTriples(repo, dir, name);
  }

  lemma NothingToJoin(parts: seq<string>, i: nat)
    requires i < |parts|
    ensures Join(parts[..0], '*') == ""
  {
    assert parts[..0] == [];
  }

  /** The inner loop of CreatePathFilePairs: the name with a slash, and a second star, put after its `i`-th star. */
  method SlashAfterStar(nameSplit: seq<string>, i: nat) returns (str: string)
    requires i + 1 < |nameSplit|
    ensures str == Join(nameSplit[..i + 1], '*') + "*/" + "*" + Join(nameSplit[i + 1..], '*')
  {
    hide Join;
    NothingToJoin(nameSplit, i);
    str := "";
    var j := 0;
    while j < |nameSplit|
      invariant 0 <= j <= |nameSplit|
      invariant j <= i ==> str == Join(nameSplit[..j], '*')
      invariant j == i + 1 ==> str == Join(nameSplit[..i + 1], '*') + "*/"
      invariant j > i + 1 ==> str == Join(nameSplit[..i + 1], '*') + "*/" + "*" + Join(nameSplit[i + 1..j], '*')
    {
      JoinGrows(nameSplit, i, j);
      if j > 0 {
        str := str + "*";
      }
      if j == i {
        str := str + nameSplit[i] + "*/";
      } else {
        str := str + nameSplit[j];
      }
      j := j + 1;
    }
    assert nameSplit[i + 1..|nameSplit|] == nameSplit[i + 1..];
  }

  lemma StarTriplesGrow(repo: string, dir: string, name: string, i: nat)
    requires i + 1 < |Split(name, '*')|
    ensures var all, parts := StarTriples(repo, dir, name), Split(name, '*');
            var left, right := Join(parts[..i + 1], '*') + "*", "*" + Join(parts[i + 1..], '*');
            all[..i + 1] == all[..i] + [RepoPathFile(repo, dir + left, right)]
  {
    hide Split, Join, Count;
    var parts := Split(name, '*');
    assert dir + (Join(parts[..i + 1], '*') + "*") == dir + Join(parts[..i + 1], '*') + "*";
  }

  lemma JoinGrows(parts: seq<string>, i: nat, j: nat)
    requires j < |parts|
    ensures j > 0 ==> Join(parts[..j + 1], '*') == Join(parts[..j], '*') + "*" + parts[j]
    ensures j == 0 ==> Join(parts[..j + 1], '*') == parts[j]
    ensures i + 1 < j ==> Join(parts[i + 1..j + 1], '*') == Join(parts[i + 1..j], '*') + "*" + parts[j]
    ensures i + 1 == j ==> Join(parts[i + 1..j + 1], '*') == parts[j]
  {
    if j > 0 {
      assert parts[..j + 1] == parts[..j] + [parts[j]];
      JoinConcat(parts[..j], [parts[j]], '*');
    }
    if i + 1 < j {
      assert parts[i + 1..j + 1] == parts[i + 1..j] + [parts[j]];
      JoinConcat(parts[i + 1..j], [parts[j]], '*');
    }
  }

  /** The string built for star `i` holds exactly one slash, so splitting it gives back the two halves. */
  lemma SplitStarPath(name: string, parts: seq<string>, i: nat, str: string)
    requires '/' !in name && parts == Split(name, '*') && i + 1 < |parts|
    requires str == Join(parts[..i + 1], '*') + "*/" + "*" + Join(parts[i + 1..], '*')
    ensures Split(str, '/') == [Join(parts[..i + 1], '*') + "*", "*" + Join(parts[i + 1..], '*')]
  {
    hide Split, Join, Count;
    PartsAtStar(name, i);
    var left, right := Join(parts[..i + 1], '*') + "*", "*" + Join(parts[i + 1..], '*');
    assert str == left + "/" + right;
    SplitCons(left, right, '/');
    SplitNoSep(right, '/');
  }

  /** The text around the `i`-th star of a name. */
  lemma PartsAtStar(name: string, i: nat)
    requires i + 1 < |Split(name, '*')|
    ensures var parts := Split(name, '*');
            var left, right := Join(parts[..i + 1], '*'), Join(parts[i + 1..], '*');
            name == left + "*" + right && name[|left|] == '*'
            && name[..|left| + 1] == left + "*" && name[|left|..] == "*" + right
  {
    hide Split, Join, Count;
    var parts := Split(name, '*');
    JoinSplit(name, '*');
    assert parts == parts[..i + 1] + parts[i + 1..];
    JoinConcat(parts[..i + 1], parts[i + 1..], '*');
  }

  /** The loop over the stars that may still belong to the repository name. */
  method TriplesForRepoStars(pattern: string, asteriskIndices: seq<nat>, firstSlashIndex: int, recursive: bool)
    returns (triples: seq<RepoPathFile>, lastRepoAsteriskIndex: nat)
    requires asteriskIndices == StarIndices(pattern) && firstSlashIndex == Index(pattern, '/')
    ensures var stars := StarIndices(RepoPart(pattern));
            triples == RepoStarTriples(pattern, stars, recursive)
            && lastRepoAsteriskIndex == if stars == [] then 0 else stars[|stars| - 1] + 1
  {
    hide PathFilePairs, StarIndices, Loosen, RepoPart, Index;
    ghost var repoStars := StarIndices(RepoPart(pattern));
    triples, lastRepoAsteriskIndex := [], 0;
    var n := 0;
    while n < |asteriskIndices|
      invariant 0 <= n <= |repoStars|
      invariant triples == RepoStarTriples(pattern, repoStars[..n], recursive)
      invariant lastRepoAsteriskIndex == if n == 0 then 0 else repoStars[n - 1] + 1
    {
      var asteriskIndex := asteriskIndices[n];
      StarBeforeSlash(pattern, n);
      if SlashPrecedesAsterisk(asteriskIndex, firstSlashIndex) {
        break;
      }
      var pairs := CreatePathFilePairs(pattern[..asteriskIndex + 1], Loosen(pattern[asteriskIndex..]), recursive);
      assert repoStars[..n + 1][..n] == repoStars[..n];
      triples := triples + pairs;
      lastRepoAsteriskIndex := asteriskIndex + 1;
      n := n + 1;
    }
    NoStarLeft(pattern);
    assert repoStars[..n] == repoStars;
  }

  lemma TranslateCases(p: string, recursive: bool)
    requires !HasPrefix(p, "/")
    ensures var stars := StarIndices(RepoPart(p));
            var own := PathFilePairs(RepoPart(p), AfterRepo(p), recursive);
            var rest := if HasSuffix(RepoPart(p), "*") then [] else own;
            Translate(p, recursive)
            == if stars == [] then Translated(own, true)
               else Translated(RepoStarTriples(p, stars, recursive) + rest, false)
  {
    hide PathFilePairs, StarIndices, RepoPart, AfterRepo, RepoStarTriples, HasSuffix;
  }

  lemma PartsAtSlash(p: string)
    ensures if Index(p, '/') < 0 then RepoPart(p) == p && AfterRepo(p) == "*"
            else RepoPart(p) == p[..Index(p, '/')] && AfterRepo(p) == p[Index(p, '/') + 1..]
  {
  }

  /** A pattern means a single repository if and only if every star of it stands after a slash. */
  lemma SingleRepoIff(p: string, recursive: bool)
    requires !HasPrefix(p, "/")
    ensures Translate(p, recursive).singleRepo <==> forall k :: 0 <= k < |p| && p[k] == '*' ==> '/' in p[..k]
  {
    hide PathFilePairs, RepoStarTriples, StarIndices, RepoPart, AfterRepo, Translate;
    TranslateCases(p, recursive);
    NoStarsIff(RepoPart(p));
    StarsAfterSlash(p);
  }

  lemma StarsAfterSlash(p: string)
    ensures '*' !in RepoPart(p) <==> forall k :: 0 <= k < |p| && p[k] == '*' ==> '/' in p[..k]
  {
    hide Index, RepoPart;
    var repo := RepoPart(p);
    forall k | 0 <= k < |p|
      ensures '/' !in p[..k] <==> k <= |repo|
      ensures k < |repo| ==> repo[k] == p[k]
      ensures k == |repo| ==> p[k] == '/'
    {
      SlashBefore(p, k);
    }
    if '*' in repo {
      var k :| 0 <= k < |repo| && repo[k] == '*';
      assert p[k] == '*';
    }
  }

  lemma SlashBefore(p: string, k: nat)
    requires k < |p|
    ensures |RepoPart(p)| <= |p|
    ensures '/' !in p[..k] <==> k <= |RepoPart(p)|
    ensures k < |RepoPart(p)| ==> RepoPart(p)[k] == p[k]
    ensures k == |RepoPart(p)| ==> p[k] == '/'
  {
    hide Index;
    IndexIsFirst(p, '/');
    var slash := Index(p, '/');
    if 0 <= slash < k {
      assert p[..k][slash] == '/';
    } else if slash >= 0 {
      assert p[..k] == p[..slash][..k];
    }
  }

  lemma {:induction false} NoStarsIff(p: string)
    ensures StarIndices(p) == [] <==> '*' !in p
  {
    if p != "" {
      NoStarsIff(p[..|p| - 1]);
      assert p == p[..|p| - 1] + [p[|p| - 1]];
    }
  }

  /** One triple for each star of the name, and one for the pattern as it is, unless it is a name that starts with a
      star. */
  lemma TripleCount(repo: string, pattern: string)
    ensures |PathFilePairs(repo, pattern, true)|
         == (if '/' in pattern || !HasPrefix(pattern, "*") then 1 else 0) + Count(NamePart(pattern), '*')
  {
    hide PathFilePairs, Count, LastIndex, Split, StarTriple;
    PathFilePairsCases(repo, pattern, true);
    LastIndexIsLast(pattern, '/');
    OneStar();
  }

  lemma OneStar()
    ensures Count("*", '*') == 1 && LastIndex("*", '/') == -1 && HasPrefix("*", "*")
  {
    assert "*"[1..] == "" && "*"[..0] == "";
  }

  method CreateRepoPathFileTriples(pattern: string, recursive: bool) returns (r: Translation)
    ensures r == Translate(pattern, recursive)
  {
    hide PathFilePairs, StarIndices, Index, RepoStarTriples, RepoPart, AfterRepo, Translate, HasPrefix, HasSuffix;
    var firstSlashIndex := Index(pattern, '/');
    LeadingSlash(pattern);
    if firstSlashIndex == 0 {
      return BadPattern;
    }
    TranslateCases(pattern, recursive);
    PartsAtSlash(pattern);
    var asteriskIndices := StarIndices(pattern);
    NoStarLeft(pattern);
    if asteriskIndices != [] {
      StarBeforeSlash(pattern, 0);
    }
    var singleRepo := asteriskIndices == [] || SlashPrecedesAsterisk(asteriskIndices[0], firstSlashIndex);
    if asteriskIndices != [] && !singleRepo {
      var triples, lastRepoAsteriskIndex := TriplesForRepoStars(pattern, asteriskIndices, firstSlashIndex, recursive);
      LastStarEndsRepoPart(pattern);
      var pairs := [];
      if lastRepoAsteriskIndex < firstSlashIndex {
        pairs := CreatePathFilePairs(pattern[..firstSlashIndex], pattern[firstSlashIndex + 1..], recursive);
      } else if firstSlashIndex < 0 && !HasSuffix(pattern, "*") {
        pairs := CreatePathFilePairs(pattern, "*", recursive);
      }
      assert pairs == if HasSuffix(RepoPart(pattern), "*") then []
                      else PathFilePairs(RepoPart(pattern), AfterRepo(pattern), recursive);
      return Translated(triples + pairs, singleRepo);
    }
    assert StarIndices(RepoPart(pattern)) == [];
    if firstSlashIndex < 0 {
      assert RepoPart(pattern) == pattern && AfterRepo(pattern) == "*";
      var pairs := CreatePathFilePairs(pattern, "*", recursive);
      return Translated(pairs, singleRepo);
    }
    var pairs := CreatePathFilePairs(pattern[..firstSlashIndex], pattern[firstSlashIndex + 1..], recursive);
    return Translated(pairs, singleRepo);
  }

  lemma LeadingSlash(p: string)
    ensures Index(p, '/') == 0 <==> HasPrefix(p, "/")
  {
    assert p != "" ==> p[..1] == [p[0]];
  }

  predicate SlashPrecedesAsterisk(asteriskIndex: int, slashIndex: int) {
    slashIndex < asteriskIndex && slashIndex >= 0
  }

  lemma {:induction false} StarsOfPrefix(p: string, n: nat)
    requires n <= |p|
    ensures StarIndices(p[..n]) <= StarIndices(p)
    ensures forall i :: |StarIndices(p[..n])| <= i < |StarIndices(p)| ==> StarIndices(p)[i] >= n
    decreases |p|
  {
    if n == |p| {
      assert p[..n] == p;
    } else {
      var m := |p| - 1;
      assert p[..m][..n] == p[..n];
      StarsOfPrefix(p[..m], n);
    }
  }

  lemma StarBeforeSlash(p: string, n: nat)
    requires n < |StarIndices(p)|
    ensures var all, own := StarIndices(p), StarIndices(RepoPart(p));
            (SlashPrecedesAsterisk(all[n], Index(p, '/')) <==> n >= |own|)
            && (n < |own| ==> own[n] == all[n])
  {
    IndexIsFirst(p, '/');
    StarsOfPrefix(p, |RepoPart(p)|);
    assert p[..|RepoPart(p)|] == RepoPart(p);
  }

  lemma NoStarLeft(p: string)
    ensures |StarIndices(RepoPart(p))| <= |StarIndices(p)|
  {
    StarsOfPrefix(p, |RepoPart(p)|);
    assert p[..|RepoPart(p)|] == RepoPart(p);
  }

  lemma LastStarEndsRepoPart(p: string)
    requires StarIndices(RepoPart(p)) != []
    ensures var stars := StarIndices(RepoPart(p));
            HasSuffix(RepoPart(p), "*") <==> stars[|stars| - 1] + 1 == |RepoPart(p)|
  {
    var repo := RepoPart(p);
    var stars := StarIndices(repo);
    if !HasSuffix(repo, "*") {
      assert repo[stars[|stars| - 1]] == '*';
    }
  }
}
