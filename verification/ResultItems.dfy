/** Search results and the three strings derived from one: relative path, sort key and location
    (artifactory/services/utils/searchutil.go). */
module ResultItems {
  import opened Text

  datatype Property = Property(key: string, value: string)

  datatype ResultItem = ResultItem(
    repo: string, path: string, name: string, itemType: string,
    actualSha1: string, properties: seq<Property>)

  // ----- path.Join -----

  /** The segments of a cleaned path: empty and "." segments go, ".." removes the segment before it. */
  function CleanSegments(segments: seq<string>, done: seq<string>, rooted: bool): seq<string>
    decreases |segments|
  {
    if segments == [] then done
    else if segments[0] == "" || segments[0] == "." then CleanSegments(segments[1..], done, rooted)
    else if segments[0] != ".." then CleanSegments(segments[1..], done + [segments[0]], rooted)
    else if done != [] && done[|done| - 1] != ".." then CleanSegments(segments[1..], done[..|done| - 1], rooted)
    else CleanSegments(segments[1..], if rooted then done else done + [".."], rooted)
  }

  function Clean(path: string): string {
    var rooted := HasPrefix(path, "/");
    var cleaned := Join(CleanSegments(Split(path, '/'), [], rooted), '/');
    if rooted then "/" + cleaned else if cleaned == "" then "." else cleaned
  }

  function NonEmpty(elements: seq<string>): seq<string> {
    if elements == [] then []
    else (if elements[0] == "" then [] else [elements[0]]) + NonEmpty(elements[1..])
  }

  function JoinPath(elements: seq<string>): string {
    var parts := NonEmpty(elements);
    if parts == [] then "" else Clean(Join(parts, '/'))
  }

  // ----- Keys -----

  predicate IsFolder(item: ResultItem) {
    item.itemType == "folder"
  }

  function AppendFolderSuffix(folderPath: string): string {
    if HasSuffix(folderPath, "/") then folderPath else folderPath + "/"
  }

  function GetItemRelativePath(item: ResultItem): string {
    if item.path == "." then JoinPath([item.repo, item.name])
    else
      var url := JoinPath([item.repo, item.path, item.name]);
      if IsFolder(item) then AppendFolderSuffix(url) else url
  }

  function GetSortKey(item: ResultItem): string {
    if IsFolder(item) then AppendFolderSuffix(GetItemRelativePath(item)) else GetItemRelativePath(item)
  }

  function GetItemRelativeLocation(item: ResultItem): string {
    JoinPath([item.repo, item.path]) + "/"
  }

  // ----- Well-formed items -----

  predicate Segment(s: string) {
    s != "" && s != "." && s != ".." && '/' !in s
  }

  predicate SegmentPath(p: string) {
    forall i :: 0 <= i < |Split(p, '/')| ==> Segment(Split(p, '/')[i])
  }

  /** An item as Artifactory stores it; only a repository's own root folder has the name ".". */
  predicate WellFormed(item: ResultItem) {
    Segment(item.repo) && Segment(item.name) && (item.path == "." || SegmentPath(item.path))
  }

  function Location(item: ResultItem): string {
    item.repo + "/" + if item.path == "." then "" else item.path + "/"
  }

  lemma {:induction false} CleanKeepsSegments(segments: seq<string>, done: seq<string>, rooted: bool)
    requires forall i :: 0 <= i < |segments| ==> Segment(segments[i])
    ensures CleanSegments(segments, done, rooted) == done + segments
  {
    if segments != [] {
      CleanKeepsSegments(segments[1..], done + [segments[0]], rooted);
      assert segments == [segments[0]] + segments[1..];
    }
  }

  lemma CleanKeeps(p: string)
    requires SegmentPath(p)
    ensures Clean(p) == p && p != "" && !HasPrefix(p, "/") && !HasSuffix(p, "/")
  {
    hide CleanSegments, Split, Join;
    var segments := Split(p, '/');
    CleanKeepsSegments(segments, [], HasPrefix(p, "/"));
    assert [] + segments == segments;
    JoinSplit(p, '/');
    FirstAndLast(p);
  }

  lemma FirstAndLast(p: string)
    requires SegmentPath(p)
    ensures p != "" && !HasPrefix(p, "/") && !HasSuffix(p, "/")
  {
    var segments := Split(p, '/');
    assert Segment(segments[0]) && Segment(segments[|segments| - 1]);
    if p != "" {
      assert p[..1] == [p[0]] && p[|p| - 1..] == [p[|p| - 1]];
      SplitEndsEmpty(p[..|p| - 1]);
      assert p == p[..|p| - 1] + [p[|p| - 1]];
    }
  }

  lemma {:induction false} SplitEndsEmpty(p: string)
    ensures var segments := Split(p + "/", '/'); segments[|segments| - 1] == ""
  {
    hide Split, Count;
    SplitStep(p + "/", '/');
    if p == "" {
      assert (p + "/")[1..] == "";
      SplitNoSep("", '/');
    } else {
      assert (p + "/")[1..] == p[1..] + "/";
      SplitEndsEmpty(p[1..]);
    }
  }

  lemma SegmentIsPath(s: string)
    requires Segment(s)
    ensures SegmentPath(s)
  {
    SplitNoSep(s, '/');
  }

  /** Two segment paths joined by a slash make a segment path. */
  lemma SegmentPathJoin(p: string, q: string)
    requires SegmentPath(p) && SegmentPath(q)
    ensures SegmentPath(p + "/" + q)
  {
    hide Split, Join;
    var a, b := Split(p, '/'), Split(q, '/');
    JoinSplit(p, '/');
    JoinSplit(q, '/');
    JoinConcat(a, b, '/');
    SplitJoin(a + b, '/');
  }

  lemma JoinTwo(a: string, b: string)
    requires a != "" && b != ""
    ensures JoinPath([a, b]) == Clean(a + "/" + b)
  {
    assert [a, b][1..] == [b] && [b][1..] == [];
    assert NonEmpty([b]) == [b] && NonEmpty([a, b]) == [a, b];
    assert Join([a, b], '/') == a + "/" + b;
  }

  lemma JoinThree(a: string, b: string, c: string)
    requires a != "" && b != "" && c != ""
    ensures JoinPath([a, b, c]) == Clean(a + "/" + b + "/" + c)
  {
    assert [a, b, c][1..] == [b, c] && [b, c][1..] == [c] && [c][1..] == [];
    assert NonEmpty([c]) == [c] && NonEmpty([b, c]) == [b, c] && NonEmpty([a, b, c]) == [a, b, c];
    assert Join([b, c], '/') == b + "/" + c;
    assert Join([a, b, c], '/') == a + "/" + (b + "/" + c) == a + "/" + b + "/" + c;
  }

  lemma CleanDot(repo: string)
    requires Segment(repo)
    ensures Clean(repo + "/.") == repo
  {
    SplitCons(repo, ".", '/');
    SplitNoSep(".", '/');
    assert repo + "/" + "." == repo + "/.";
    assert [repo, "."][1..] == ["."] && ["."][1..] == [];
    assert (repo + "/.")[..1] == [repo[0]] && repo[0] in repo;
    assert [] + [repo] == [repo];
    assert CleanSegments(["."], [repo], false) == [repo];
    assert CleanSegments([repo, "."], [], false) == [repo];
  }

  /** The three strings of a well-formed item. The relative path of a root folder is the odd one: it lacks the
      slash that its sort key has. */
  lemma Keys(item: ResultItem)
    requires WellFormed(item)
    ensures GetItemRelativeLocation(item) == Location(item)
    ensures GetItemRelativePath(item)
         == Location(item) + item.name + if IsFolder(item) && item.path != "." then "/" else ""
    ensures GetSortKey(item) == Location(item) + item.name + if IsFolder(item) then "/" else ""
  {
    hide Clean, JoinPath, Split;
    SegmentIsPath(item.repo);
    SegmentIsPath(item.name);
    if item.path == "." {
      JoinTwo(item.repo, item.name);
      JoinTwo(item.repo, ".");
      CleanDot(item.repo);
      assert item.repo + "/" + "." == item.repo + "/.";
      SegmentPathJoin(item.repo, item.name);
      CleanKeeps(item.repo + "/" + item.name);
    } else {
      CleanKeeps(item.path);
      JoinTwo(item.repo, item.path);
      JoinThree(item.repo, item.path, item.name);
      SegmentPathJoin(item.repo, item.path);
      SegmentPathJoin(item.repo + "/" + item.path, item.name);
      CleanKeeps(item.repo + "/" + item.path);
      CleanKeeps(item.repo + "/" + item.path + "/" + item.name);
      assert item.repo + "/" + (item.path + "/") == item.repo + "/" + item.path + "/";
    }
  }

  /** A well-formed file's relative path tells where the file lies. */
  lemma LocationOfPath(a: ResultItem, b: ResultItem)
    requires WellFormed(a) && WellFormed(b) && !IsFolder(a) && !IsFolder(b)
    requires GetItemRelativePath(a) == GetItemRelativePath(b)
    ensures GetItemRelativeLocation(a) == GetItemRelativeLocation(b)
  {
    hide GetItemRelativePath, GetItemRelativeLocation;
    Keys(a);
    Keys(b);
    assert Location(a) + a.name + "" == Location(a) + a.name && Location(b) + b.name + "" == Location(b) + b.name;
    LastSlash(Location(a), a.name, Location(b), b.name);
  }

  lemma LastSlash(x: string, n: string, y: string, m: string)
    requires x != "" && y != "" && x[|x| - 1] == '/' && y[|y| - 1] == '/'
    requires '/' !in n && '/' !in m && x + n == y + m
    ensures x == y
  {
    var s := x + n;
    assert forall i :: |x| <= i < |s| ==> s[i] == n[i - |x|] && n[i - |x|] in n;
    assert forall i :: |y| <= i < |s| ==> s[i] == m[i - |y|] && m[i - |y|] in m;
    assert s[|x| - 1] == s[|y| - 1] == '/';
    assert (x + n)[..|x|] == x && (y + m)[..|y|] == y;
  }
}
