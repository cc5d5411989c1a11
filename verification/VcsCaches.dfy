/** The cache of version control details by directory (utils/vcsdetails.go), used by one thread on a file system that
    does not change. */
module VcsCaches {
  import opened Wrappers
  import opened Sequences
  import opened Text

  const MAX_ENTRIES: int := 10000

  datatype VcsDetails = VcsDetails(url: string, revision: string, branch: string)

  /** What the file system holds at the `.git` of a directory. */
  datatype GitDir = Absent | Unreadable(err: string) | Readable(details: VcsDetails)

  type FileSystem = string -> GitDir

  const NO_DETAILS: VcsDetails := VcsDetails("", "", "")

  method TryGetGitDetails(fs: FileSystem, path: string)
    returns (revision: string, refUrl: string, branch: string, err: Option<string>)
    ensures VcsDetails(refUrl, revision, branch) == if fs(path).Readable? then fs(path).details else NO_DETAILS
    ensures err == if fs(path).Unreadable? then Some(fs(path).err) else None
  {
    match fs(path)
    case Absent => return "", "", "", None;
    case Unreadable(e) => return "", "", "", Some(e);
    case Readable(d) => return d.revision, d.url, d.branch, None;
  }

  // ----- The search without a cache -----

  datatype Lookup = Found(details: VcsDetails) | NotFound | Failed(err: string)

  predicate Upstream(g: GitDir) {
    g.Readable? && g.details != NO_DETAILS
  }

  /** The nearest ancestor of the directory that has details decides. */
  function Nearest(fs: FileSystem, keys: seq<string>): Lookup {
    if keys == [] then NotFound
    else
      var g := fs(Join(keys, '/'));
      if Upstream(g) then Found(g.details)
      else if g.Unreadable? then Failed(g.err)
      else Nearest(fs, keys[..|keys| - 1])
  }

  /** `n` is the length of the longest prefix of `keys` at which the search has to stop. */
  ghost predicate Stops(fs: FileSystem, keys: seq<string>, n: nat) {
    && n <= |keys|
    && (n > 0 ==> var g := fs(Join(keys[..n], '/')); Upstream(g) || g.Unreadable?)
    && forall m :: n < m <= |keys| ==> var g := fs(Join(keys[..m], '/')); !Upstream(g) && !g.Unreadable?
  }

  /** The search is decided by the longest prefix that is a repository with details or cannot be read. */
  lemma {:induction false} NearestIsNearest(fs: FileSystem, keys: seq<string>, n: nat)
    requires Stops(fs, keys, n)
    ensures Nearest(fs, keys) == if n == 0 then NotFound
                                 else match fs(Join(keys[..n], '/'))
                                      case Unreadable(err) => Failed(err)
                                      case Readable(details) => Found(details)
                                      case Absent => NotFound
  {
    hide Join;
    if keys != [] {
      assert keys[..|keys|] == keys;
      if n < |keys| {
        var rest := keys[..|keys| - 1];
        assert forall m :: 0 <= m <= |rest| ==> rest[..m] == keys[..m];
        NearestIsNearest(fs, rest, n);
      }
    }
  }

  // ----- The cache as a value -----

  datatype Cache = Cache(rootDir: map<string, VcsDetails>, dir: map<string, Option<VcsDetails>>, size: int)

  function Search(c: Cache, path: string): Option<Option<VcsDetails>> {
    if path in c.dir then Some(c.dir[path])
    else if path in c.rootDir then Some(Some(c.rootDir[path]))
    else None
  }

  function ToLookup(details: Option<VcsDetails>): Lookup {
    if details.Some? then Found(details.value) else NotFound
  }

  function ToDetails(lookup: Lookup): Option<VcsDetails> {
    if lookup.Found? then Some(lookup.details) else None
  }

  /** The answer of a search, the directories that were missed, the longest first, and the repository that was read,
      if any. */
  datatype Outcome = Outcome(answer: Lookup, missed: seq<string>, root: Option<string>)

  function Walk(fs: FileSystem, c: Cache, keys: seq<string>): Outcome {
    if keys == [] then Outcome(NotFound, [], None)
    else
      var path := Join(keys, '/');
      if Search(c, path).Some? then Outcome(ToLookup(Search(c, path).value), [], None)
      else if Upstream(fs(path)) then Outcome(Found(fs(path).details), [], Some(path))
      else if fs(path).Unreadable? then Outcome(Failed(fs(path).err), [], None)
      else
        var rest := Walk(fs, c, keys[..|keys| - 1]);
        rest.(missed := [path] + rest.missed)
  }

  function Prepend(subPaths: seq<string>, o: Outcome): Outcome {
    o.(missed := subPaths + o.missed)
  }

  lemma PrependNothing(o: Outcome)
    ensures Prepend([], o) == o
  {
  }

  /** One turn of the loop over the prefixes. */
  lemma WalkStep(fs: FileSystem, c: Cache, keys: seq<string>, subPaths: seq<string>)
    ensures var walk := Prepend(subPaths, Walk(fs, c, keys));
            if keys == [] then walk == Outcome(NotFound, subPaths, None)
            else
              var path := Join(keys, '/');
              if Search(c, path).Some? then walk == Outcome(ToLookup(Search(c, path).value), subPaths, None)
              else if Upstream(fs(path)) then walk == Outcome(Found(fs(path).details), subPaths, Some(path))
              else if fs(path).Unreadable? then walk == Outcome(Failed(fs(path).err), subPaths, None)
              else walk == Prepend(subPaths + [path], Walk(fs, c, keys[..|keys| - 1]))
  {
    hide Join, Search;
    assert subPaths + [] == subPaths;
    if keys != [] {
      var rest := Walk(fs, c, keys[..|keys| - 1]).missed;
      assert subPaths + ([Join(keys, '/')] + rest) == (subPaths + [Join(keys, '/')]) + rest;
    }
  }

  function StoreAll(dir: map<string, Option<VcsDetails>>, paths: seq<string>, details: Option<VcsDetails>)
    : map<string, Option<VcsDetails>>
  {
    if paths == [] then dir else StoreAll(dir, paths[..|paths| - 1], details)[paths[|paths| - 1] := details]
  }

  function Cleared(c: Cache): Cache {
    if c.size > MAX_ENTRIES then c.(dir := map[], size := 0) else c
  }

  /** The cache with the repository that the search read. */
  function Rooted(c: Cache, w: Outcome): Cache {
    if w.root.Some? && w.answer.Found? then c.(rootDir := c.rootDir[w.root.value := w.answer.details]) else c
  }

  function Answer(fs: FileSystem, c: Cache, path: string): Lookup {
    Walk(fs, c, Split(path, '/')).answer
  }

  /** The cache after a lookup. */
  function After(fs: FileSystem, c: Cache, path: string): Cache {
    var w := Walk(fs, c, Split(path, '/'));
    if w.answer.Failed? then c
    else if w.missed == [] then Rooted(c, w)
    else
      var cleared := Cleared(Rooted(c, w));
      cleared.(dir := StoreAll(cleared.dir, w.missed, ToDetails(w.answer)), size := cleared.size + |w.missed|)
  }

  class VcsCache {
    var vcsRootDir: map<string, VcsDetails>
    var vcsDir: map<string, Option<VcsDetails>>
    var vcsDirSize: int

    function Contents(): (c: Cache)
      reads this
    {
      Cache(vcsRootDir, vcsDir, vcsDirSize)
    }

    constructor ()
      ensures Contents() == Cache(map[], map[], 0)
    {
      vcsRootDir, vcsDir, vcsDirSize := map[], map[], 0;
    }

    method SearchCache(path: string) returns (details: Option<VcsDetails>, found: bool)
      ensures found == Search(Contents(), path).Some?
      ensures details == if found then Search(Contents(), path).value else None
    {
      if path in vcsDir {
        return vcsDir[path], true;
      }
      if path in vcsRootDir {
        return Some(vcsRootDir[path]), true;
      }
      return None, false;
    }

    method ClearCacheIfExceedsMax()
      modifies this
      ensures Contents() == Cleared(old(Contents()))
    {
      if vcsDirSize > MAX_ENTRIES {
        vcsDir := map[];
        vcsDirSize := 0;
      }
    }

    method StoreSubPaths(subPaths: seq<string>, details: Option<VcsDetails>)
      modifies this
      ensures Contents().rootDir == old(vcsRootDir) && Contents().dir == StoreAll(old(vcsDir), subPaths, details)
      ensures Contents().size == old(vcsDirSize) + |subPaths|
    {
      for k := 0 to |subPaths|
        invariant Contents() == old(Contents()).(dir := StoreAll(old(vcsDir), subPaths[..k], details))
      {
        assert subPaths[..k + 1][..k] == subPaths[..k];
        vcsDir := vcsDir[subPaths[k] := details];
      }
      assert subPaths[..|subPaths|] == subPaths;
      vcsDirSize := vcsDirSize + |subPaths|;
    }

    method GetVcsDetails(fs: FileSystem, path: string)
      returns (revision: string, refUrl: string, branch: string, err: Option<string>)
      modifies this
      ensures Contents() == After(fs, old(Contents()), path)
      ensures match Answer(fs, old(Contents()), path)
              case Found(d) => VcsDetails(refUrl, revision, branch) == d && err == None
              case NotFound => VcsDetails(refUrl, revision, branch) == NO_DETAILS && err == None
              case Failed(e) => VcsDetails(refUrl, revision, branch) == NO_DETAILS && err == Some(e)
    {
      hide Split, Join, StoreAll, Search, Walk, Prepend;
      var keys := Split(path, '/');
      ghost var c, w := Contents(), Walk(fs, Contents(), keys);
      revision, refUrl, branch, err := "", "", "", None;
      var subPath: string;
      var subPaths: seq<string> := [];
      var result: Option<VcsDetails> := None;
      var i := |keys|;
      assert keys[..i] == keys;
      PrependNothing(w);
      while i > 0
        invariant 0 <= i <= |keys|
        invariant Contents() == c && result == None && (revision, refUrl, branch, err) == ("", "", "", None)
        invariant w == Prepend(subPaths, Walk(fs, c, keys[..i]))
      {
        subPath := Join(keys[..i], '/');
        assert keys[..i][..i - 1] == keys[..i - 1];
        WalkStep(fs, c, keys[..i], subPaths);
        var details, found := SearchCache(subPath);
        if found {
          if details.Some? {
            revision, refUrl, branch := details.value.revision, details.value.url, details.value.branch;
            result := details;
          }
          assert w == Outcome(ToLookup(details), subPaths, None);
          break;
        }
        revision, refUrl, branch, err := TryGetGitDetails(fs, subPath);
        if revision != "" || refUrl != "" || branch != "" {
          result := Some(VcsDetails(refUrl, revision, branch));
          assert w == Outcome(Found(result.value), subPaths, Some(subPath));
          vcsRootDir := vcsRootDir[subPath := result.value];
          break;
        }
        if err.Some? {
          return;
        }
        subPaths := subPaths + [subPath];
        i := i - 1;
      }
      WalkStep(fs, c, [], subPaths);
      assert i == 0 ==> keys[..i] == [];
      if |subPaths| > 0 {
        ClearCacheIfExceedsMax();
        StoreSubPaths(subPaths, result);
      }
    }
  }

  // ----- What the cache keeps -----

  /** Every entry holds what the search without a cache finds, and the counter counts the entries. */
  ghost predicate Valid(fs: FileSystem, c: Cache) {
    && (forall p :: p in c.dir ==> ToLookup(c.dir[p]) == Nearest(fs, Split(p, '/')))
    && (forall p :: p in c.rootDir ==> Found(c.rootDir[p]) == Nearest(fs, Split(p, '/')))
    && c.size == |c.dir|
  }

  /** The directories hold what a search that found or missed everything has to store. */
  ghost predicate Storable(fs: FileSystem, c: Cache, w: Outcome, depth: nat) {
    && |w.missed| <= depth
    && (forall i :: 0 <= i < |w.missed| ==> w.missed[i] !in c.dir && |Split(w.missed[i], '/')| <= depth)
    && (forall i, j :: 0 <= i < j < |w.missed| ==> w.missed[i] != w.missed[j])
    && (!w.answer.Failed? ==> forall i :: 0 <= i < |w.missed| ==> Nearest(fs, Split(w.missed[i], '/')) == w.answer)
    && (w.root.Some? ==> w.answer.Found? && Nearest(fs, Split(w.root.value, '/')) == w.answer)
  }

  lemma StorableMore(fs: FileSystem, c: Cache, w: Outcome, depth: nat, path: string)
    requires Storable(fs, c, w, depth) && |Split(path, '/')| == depth + 1 && path !in c.dir
    requires !w.answer.Failed? ==> Nearest(fs, Split(path, '/')) == w.answer
    ensures Storable(fs, c, w.(missed := [path] + w.missed), depth + 1)
  {
    hide Split, Nearest;
    var missed := [path] + w.missed;
    assert forall i :: 0 < i < |missed| ==> missed[i] == w.missed[i - 1];
  }

  lemma {:induction false} WalkFindsNearest(fs: FileSystem, c: Cache, keys: seq<string>)
    requires Valid(fs, c) && forall i :: 0 <= i < |keys| ==> '/' !in keys[i]
    ensures Walk(fs, c, keys).answer == Nearest(fs, keys)
    ensures Storable(fs, c, Walk(fs, c, keys), |keys|)
  {
    hide Join, Split, Storable;
    if keys == [] {
      NothingStorable(fs, c, Walk(fs, c, keys), 0);
    } else {
      var path, rest := Join(keys, '/'), keys[..|keys| - 1];
      SplitJoin(keys, '/');
      if Search(c, path).None? && !Upstream(fs(path)) && !fs(path).Unreadable? {
        WalkFindsNearest(fs, c, rest);
        StorableMore(fs, c, Walk(fs, c, rest), |rest|, path);
      } else {
        NothingStorable(fs, c, Walk(fs, c, keys), |keys|);
      }
    }
  }

  lemma NothingStorable(fs: FileSystem, c: Cache, w: Outcome, depth: nat)
    requires w.missed == [] && (w.root.Some? ==> w.answer.Found? && Nearest(fs, Split(w.root.value, '/')) == w.answer)
    ensures Storable(fs, c, w, depth)
  {
  }

  lemma {:induction false} StoreAllHas(dir: map<string, Option<VcsDetails>>, paths: seq<string>,
                                       details: Option<VcsDetails>)
    ensures var d := StoreAll(dir, paths, details);
            d.Keys == dir.Keys + (set p | p in paths)
            && forall p :: p in d ==> d[p] == if p in paths then details else dir[p]
  {
    hide StoreAll;
    if paths == [] {
      NothingStored(dir, details);
    } else {
      var rest, last := paths[..|paths| - 1], paths[|paths| - 1];
      StoreAllHas(dir, rest, details);
      StoreAllStep(dir, paths, details);
      assert paths == rest + [last];
      assert (set p | p in paths) == (set p | p in rest) + {last};
    }
  }

  lemma {:induction false} StoreAllCounts(dir: map<string, Option<VcsDetails>>, paths: seq<string>,
                                          details: Option<VcsDetails>)
    requires forall i :: 0 <= i < |paths| ==> paths[i] !in dir
    requires forall i, j :: 0 <= i < j < |paths| ==> paths[i] != paths[j]
    ensures |StoreAll(dir, paths, details)| == |dir| + |paths|
  {
    hide StoreAll;
    if paths == [] {
      NothingStored(dir, details);
    } else {
      var rest, last := paths[..|paths| - 1], paths[|paths| - 1];
      StoreAllCounts(dir, rest, details);
      StoreAllHas(dir, rest, details);
      StoreAllStep(dir, paths, details);
      OneMoreKey(StoreAll(dir, rest, details), last, details);
    }
  }

  lemma NothingStored(dir: map<string, Option<VcsDetails>>, details: Option<VcsDetails>)
    ensures StoreAll(dir, [], details) == dir
  {
  }

  lemma StoreAllStep(dir: map<string, Option<VcsDetails>>, paths: seq<string>, details: Option<VcsDetails>)
    requires paths != []
    ensures StoreAll(dir, paths, details) == StoreAll(dir, paths[..|paths| - 1], details)[paths[|paths| - 1] := details]
  {
  }

  lemma ClearedValid(fs: FileSystem, c: Cache)
    requires Valid(fs, c)
    ensures Valid(fs, Cleared(c)) && Cleared(c).rootDir == c.rootDir && Cleared(c).size <= MAX_ENTRIES
    ensures forall p :: p in Cleared(c).dir ==> p in c.dir
  {
    hide Split, Nearest;
  }

  lemma StoredValid(fs: FileSystem, c: Cache, w: Outcome, depth: nat)
    requires Valid(fs, c) && Storable(fs, c, w, depth) && !w.answer.Failed?
    ensures Valid(fs, c.(dir := StoreAll(c.dir, w.missed, ToDetails(w.answer)), size := c.size + |w.missed|))
  {
    hide Split, Nearest, StoreAll;
    StoreAllCounts(c.dir, w.missed, ToDetails(w.answer));
    StoredAnswers(fs, c, w, depth);
  }

  lemma StoredAnswers(fs: FileSystem, c: Cache, w: Outcome, depth: nat)
    requires Valid(fs, c) && Storable(fs, c, w, depth) && !w.answer.Failed?
    ensures var dir := StoreAll(c.dir, w.missed, ToDetails(w.answer));
            forall p :: p in dir ==> ToLookup(dir[p]) == Nearest(fs, Split(p, '/'))
  {
    hide Split, Nearest, StoreAll;
    StoreAllHas(c.dir, w.missed, ToDetails(w.answer));
  }

  /** The repository that was read is stored, and after an eviction there is still room for what was missed. */
  lemma RootedValid(fs: FileSystem, c: Cache, w: Outcome, depth: nat)
    requires Valid(fs, c) && Storable(fs, c, w, depth)
    ensures Valid(fs, Rooted(c, w)) && Rooted(c, w).dir == c.dir
    ensures Valid(fs, Cleared(Rooted(c, w))) && Storable(fs, Cleared(Rooted(c, w)), w, depth)
    ensures |Cleared(Rooted(c, w)).dir| <= MAX_ENTRIES
  {
    hide Split, Nearest;
    ClearedValid(fs, Rooted(c, w));
  }

  /** Storing what the search found, after an eviction if there were too many entries, keeps the cache valid and
      bounded. */
  lemma AfterValid(fs: FileSystem, c: Cache, path: string, depth: nat)
    requires Valid(fs, c) && Storable(fs, c, Walk(fs, c, Split(path, '/')), depth)
    ensures Valid(fs, After(fs, c, path))
    ensures |After(fs, c, path).dir| <= Max(|c.dir|, MAX_ENTRIES + depth)
  {
    hide Split, Walk, StoreAll, Valid, Cleared, Rooted, Nearest;
    var w := Walk(fs, c, Split(path, '/'));
    if !w.answer.Failed? {
      RootedValid(fs, c, w, depth);
      StoredValid(fs, Cleared(Rooted(c, w)), w, depth);
      StoredSize(fs, Cleared(Rooted(c, w)), w, depth);
    }
  }

  lemma StoredSize(fs: FileSystem, c: Cache, w: Outcome, depth: nat)
    requires Storable(fs, c, w, depth)
    ensures |StoreAll(c.dir, w.missed, ToDetails(w.answer))| <= |c.dir| + depth
  {
    hide Split, Nearest;
    StoreAllCounts(c.dir, w.missed, ToDetails(w.answer));
  }

  /** A lookup answers what the search without a cache finds, errors included, keeps the cache valid, and leaves at most
      MAX_ENTRIES and one entry for each level of the path, unless the directory had more entries before. */
  lemma LookupIsNearest(fs: FileSystem, c: Cache, path: string)
    requires Valid(fs, c)
    ensures Answer(fs, c, path) == Nearest(fs, Split(path, '/'))
    ensures Valid(fs, After(fs, c, path))
    ensures |After(fs, c, path).dir| <= Max(|c.dir|, MAX_ENTRIES + |Split(path, '/')|)
  {
    hide Split, Walk, Nearest, After, Valid, Storable;
    WalkFindsNearest(fs, c, Split(path, '/'));
    AfterValid(fs, c, path, |Split(path, '/')|);
  }

  // ----- What a lookup leaves behind -----

  /** The search looks at this prefix and at every longer one without finding anything. */
  ghost predicate Passes(fs: FileSystem, c: Cache, keys: seq<string>, m: nat) {
    0 < m <= |keys| && forall j :: m <= j <= |keys| ==> Missing(fs, c, Join(keys[..j], '/'))
  }

  predicate Missing(fs: FileSystem, c: Cache, path: string) {
    Search(c, path).None? && !Upstream(fs(path)) && !fs(path).Unreadable?
  }

  lemma {:induction false} PassedIsMissed(fs: FileSystem, c: Cache, keys: seq<string>, m: nat)
    requires Passes(fs, c, keys, m)
    ensures Join(keys[..m], '/') in Walk(fs, c, keys).missed
  {
    hide Join, Search;
    assert keys[..|keys|] == keys;
    var rest := keys[..|keys| - 1];
    if m < |keys| {
      assert forall j :: m <= j <= |rest| ==> rest[..j] == keys[..j];
      PassedIsMissed(fs, c, rest, m);
    }
  }

  /** After a lookup without error every directory it passed is in the cache with the answer. */
  lemma PassedIsStored(fs: FileSystem, c: Cache, path: string, m: nat)
    requires Passes(fs, c, Split(path, '/'), m) && !Answer(fs, c, path).Failed?
    ensures var p := Join(Split(path, '/')[..m], '/');
            var d := After(fs, c, path).dir;
            p in d && ToLookup(d[p]) == Answer(fs, c, path)
  {
    hide Split, Join, Walk, StoreAll;
    var w := Walk(fs, c, Split(path, '/'));
    PassedIsMissed(fs, c, Split(path, '/'), m);
    StoreAllHas(Cleared(Rooted(c, w)).dir, w.missed, ToDetails(w.answer));
  }

  /** A lookup loses nothing of the cache, unless the directory already had more than the maximal number of entries. */
  lemma NothingIsLost(fs: FileSystem, c: Cache, path: string, p: string)
    requires Valid(fs, c) && c.size <= 10000 && Search(c, p).Some?
    ensures Search(After(fs, c, path), p) == Search(c, p)
  {
    hide Split, Walk, StoreAll, Valid, Nearest;
    var w := Walk(fs, c, Split(path, '/'));
    WalkFindsNearest(fs, c, Split(path, '/'));
    MissedIsMissing(fs, c, Split(path, '/'));
    StoreAllHas(c.dir, w.missed, ToDetails(w.answer));
  }

  /** The repositories that were read stay in the cache, evictions included; and after a lookup without error that
      passed directories in a cache with too many entries exactly those directories are left. */
  lemma EvictionKeepsRepositories(fs: FileSystem, c: Cache, path: string)
    ensures var after := After(fs, c, path);
            forall p :: p in c.rootDir ==> p in after.rootDir && after.rootDir[p] == c.rootDir[p]
    ensures var w := Walk(fs, c, Split(path, '/'));
            c.size > 10000 && w.missed != [] && !w.answer.Failed? ==>
              After(fs, c, path).dir.Keys == set p | p in w.missed
  {
    hide Split, Walk, StoreAll;
    var w := Walk(fs, c, Split(path, '/'));
    MissedIsMissing(fs, c, Split(path, '/'));
    StoreAllHas(Cleared(Rooted(c, w)).dir, w.missed, ToDetails(w.answer));
  }

  lemma {:induction false} MissedIsMissing(fs: FileSystem, c: Cache, keys: seq<string>)
    ensures var w := Walk(fs, c, keys);
            && (forall i :: 0 <= i < |w.missed| ==> Search(c, w.missed[i]).None?)
            && (w.root.Some? ==> Search(c, w.root.value).None?)
  {
    hide Join, Search;
    if keys != [] {
      MissedIsMissing(fs, c, keys[..|keys| - 1]);
    }
  }

  /** The next lookup of the path answers the same from the cache: whatever the file system holds by then. */
  lemma NextFromCache(fs: FileSystem, later: FileSystem, c: Cache, path: string)
    requires !Answer(fs, c, path).Failed?
    ensures Answer(later, After(fs, c, path), path) == Answer(fs, c, path)
  {
    hide Split, Join, Walk, StoreAll;
    var keys := Split(path, '/');
    JoinSplit(path, '/');
    WalkStep(fs, c, keys, []);
    PrependNothing(Walk(fs, c, keys));
    WalkStep(later, After(fs, c, path), keys, []);
    PrependNothing(Walk(later, After(fs, c, path), keys));
    var w := Walk(fs, c, keys);
    StoreAllHas(Cleared(Rooted(c, w)).dir, w.missed, ToDetails(w.answer));
    if Missing(fs, c, path) {
      FirstMissed(fs, c, keys);
    }
  }

  lemma FirstMissed(fs: FileSystem, c: Cache, keys: seq<string>)
    requires keys != [] && Missing(fs, c, Join(keys, '/'))
    ensures Join(keys, '/') in Walk(fs, c, keys).missed
  {
    hide Join, Search;
  }

  function Max(a: int, b: int): int {
    if a < b then b else a
  }

  function AfterAll(fs: FileSystem, paths: seq<string>): Cache {
    if paths == [] then Cache(map[], map[], 0)
    else After(fs, AfterAll(fs, paths[..|paths| - 1]), paths[|paths| - 1])
  }

  /** Over every sequence of lookups from a new cache, evictions included: the cache stays valid, its counter counts
      the entries, their number is bounded, and the next lookup of any path answers what the search without a cache
      finds. */
  lemma {:induction false} LookupsAreNearest(fs: FileSystem, paths: seq<string>, depth: nat, next: string)
    requires forall i :: 0 <= i < |paths| ==> |Split(paths[i], '/')| <= depth
    ensures Valid(fs, AfterAll(fs, paths))
    ensures AfterAll(fs, paths).size == |AfterAll(fs, paths).dir| <= 10000 + depth
    ensures Answer(fs, AfterAll(fs, paths), next) == Nearest(fs, Split(next, '/'))
  {
    hide Split, After, Nearest, Answer;
    if paths != [] {
      var rest, last := paths[..|paths| - 1], paths[|paths| - 1];
      LookupsAreNearest(fs, rest, depth, last);
      LookupIsNearest(fs, AfterAll(fs, rest), last);
    }
    LookupIsNearest(fs, AfterAll(fs, paths), next);
  }
}
