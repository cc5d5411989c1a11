# Verification of the algorithmic layer of the Artifactory client

The client talks HTTP, but what it sends and what it deletes, downloads or reports is decided by a layer of plain
algorithms. This project models that layer in Dafny and proves what it promises.

* **Search patterns** (`Text`, `Wildcard`, `RepoPathFiles`, `RepoPathQuery`, `RepoPathDirect`, `RepoPathAgreement`,
  `RepoPathDouble`, `RepoPathRootItems`, `RepoPathNoSlash`). A wildcard pattern over `repo/path/name` becomes a list of
  (repo, path, name) triples, because the server stores the three parts in separate columns. The project gives the pattern
  and the triples a meaning and proves for all patterns and artifacts how the two compare.
* **External sort, and deleting by it** (`StringOrder`, `SortedRecords`, `SortBuffers`, `ReaderHeads`, `ContentReader`,
  `ReaderMerge`, `Sequences`, `ResultItems`, `DeleteUtils`, `DeleteSweep`, `SearchUtil`, `DirReduction`, `Delete`,
  `DeleteLimits`, `DeleteExample`). Search results are filtered into bounded sorted buffers, merged, swept against the files to keep and
  reduced to the top-most paths. The methods follow the code with its arrays, cursors and maps. Each is proved to compute a
  specification function, and the lemmas say what the functions mean, up to the end-to-end safety of a delete.
* **Builds and property joins** (`BuildSearch`, `BuildSelection`, `PropsJoin`).
* **Protocols**: parallel range download (`Download`, `DownloadRuns`) and token refresh (`TokenRefresh`) as state machines
  over the reads and writes of shared data, with theorems about all runs, and the version control cache (`VcsCaches`) as
  a class.
* **Escaping, matching and traversal** (`EscapedSplit`, `UrlEscape`, `ItemProperties`, `PropertiesParsed`,
  `PropertiesSent`, `PropertiesRoundTrip`, `PropertiesExact`, `PropertiesRepeated`, `PropertiesRepeatedExact`,
  `Identifier`, `ParenthesesUtils`, `Placeholders`, `PlaceholderNumbers`, `GraphScan`).

`dafny verify dfyconfig.toml` checks everything.

## What the proofs found

Each of these is stated as a lemma in the table below.

* A pattern with `//` in front of a name that holds a star may find items that it does not match (`SingleRepoExactIff`
  says when). With a star in the repository part it may find some without a star in the name: `a*//b` finds `ax/y/b`
  (`DoubleSlashExample`), and `DoubleSlashAgreesIff` says for which patterns with `//` something is found.
* When a repository part ends in `*`, its slash may be trimmed, and the rest of the pattern floats: `a*/b*` also finds
  `ax/yb` and `ax/y/yb`, which it does not match (`FloatExample`). `AgreeBelowRootIff` says for which patterns.
* Items at the root of a repository are stored with the path ".", which a dot of a pattern can match: `AgreeOnRootIff` says
  for which patterns with one slash root items are found that the pattern does not match, and `AgreeWithoutSlashIff` for
  which patterns without a slash: those with a dot between two stars, as `r*.*`.
* A folder at the root of a repository is buffered under a path without its final slash and merged under a key with it.
  With more than one buffer the merged folders may be out of order, and a folder that holds a protected file is deleted:
  `DeleteIsSafeIff` gives the exact condition, `TwoBuffersUnsafe` an instance with three folders. And with any number of
  buffers a root folder `a` is kept because of a protected file in its neighbour `ab`: `DeleteIsExactIff`, and
  `NeighbourKeepsA` for an instance.
* The comment on `SortContentReader` says that items with equal keys all survive; the code it calls keeps only the first of
  them. The model follows the code (`SortContentReaderByCalculatedKey`).
* A file shorter than the number of chunks is requested in ranges that section 2.1 of RFC 7233 calls invalid
  (`RangesValidIff`, and `InvalidRangeExample` for one byte in three chunks).
* A target such as `{0}` or `{-1}` makes the search for placeholders index its list below zero (`FindParentheses`,
  `PanicExamples`).
* `IsPlaceholdersUsed` compares the stripped pattern with the target and not with the pattern, against its comment:
  `UsedIsRightIff` gives the exact condition, `UsedIsWrong` and `UsedIsMissed` a wrong answer of either kind.
* Graph flattening loses components when the depth limit cut the occurrence that comes first (`CutLosesIds`), or cut an
  occurrence below another one of the same id (`NestingLosesIds`).

## Model

| member | source | states |
|---|---|---|
| Wildcard.MatchConcat | artifactory/services/utils/aqlquerybuilder.go:420-428 | a concatenation of strings matches the concatenated patterns that match its parts |
| Wildcard.MatchAcrossSlash | artifactory/services/utils/repopathfile.go:80-118 | a pattern matches two strings joined by a slash if and only if one of its positions accounts for that slash: a literal slash, or a star that both halves then keep |
| RepoPathFiles.CreatePathFilePairs | artifactory/services/utils/repopathfile.go:80-140 | the loop over the name's stars yields the pairs of the specification: one triple per star, and the plain one |
| RepoPathFiles.TripleCount | artifactory/services/utils/repopathfile.go:80-133 | one triple for each star of the name, and one for the pattern as it is unless it is a bare name that starts with a star |
| RepoPathFiles.TriplesForRepoStars | artifactory/services/utils/repopathfile.go:38-58 | the loop over the stars yields the triples of every star of the repository part, and where the last of them ends |
| RepoPathFiles.CreateRepoPathFileTriples | artifactory/services/utils/repopathfile.go:27-78 | the translation, its error for a leading slash, and whether one repository is meant |
| RepoPathFiles.SingleRepoIff | artifactory/services/utils/repopathfile.go:33-34 | one repository is meant if and only if every star of the pattern stands after a slash |
| RepoPathQuery.PairsExact | artifactory/services/utils/repopathfile.go:80-118 | the triples of a repository and a path pattern match an item if and only if the repository matches and the pattern matches path and name, where a root item also shows its stored path `.` |
| RepoPathQuery.TranslationExact | artifactory/services/utils/repopathfile.go:27-118 | for every pattern without `//` and every artifact, some recursive triple matches if and only if the pattern denotes the artifact |
| RepoPathQuery.QueryComplete | artifactory/services/utils/aqlquerybuilder.go:23-31 | for every pattern, an item whose full path it matches is found by the whole query, the exclusion of root items included; a pattern without slash finds the whole repository |
| RepoPathQuery.SingleRepoExactIff | artifactory/services/utils/repopathfile.go:72-118 | for one repository, `//` included, and items below the root, triples and pattern agree on all items if and only if not both hold: a slash is lost before the name's stars, and the directory before it is one that a stored path can match |
| RepoPathQuery.OverMatchWitness | artifactory/services/utils/repopathfile.go:99-118 | a pattern for which both hold finds an artifact that it does not match |
| RepoPathAgreement.AgreeBelowRootIff | artifactory/services/utils/repopathfile.go:36-72 | for every pattern with a slash and without `//`, stars in the repository part included: triples and pattern agree on all items below the root if and only if the pattern does not float, that is, the slash after its repository part was trimmed, no star follows it, and the pattern does not end in a slash |
| RepoPathAgreement.FloatWitness | artifactory/services/utils/repopathfile.go:46-55 | a pattern that floats finds an artifact below the root that it does not match |
| RepoPathAgreement.FloatExample | artifactory/services/utils/repopathfile.go:46-55 | `a*/b*` finds `ax/yb` and `ax/y/yb`, and matches neither |
| RepoPathDouble.FindsAnythingIff | artifactory/services/utils/repopathfile.go:27-118 | for every pattern: the recursive triples find some item if and only if, for some star of the repository part or for the text after the last one, the part left for path and name is one that some path and name can match, or it loses a slash before the name's stars and its directory is one that a path can start with |
| RepoPathDouble.DoubleSlashAgreesIff | artifactory/services/utils/repopathfile.go:46-55 | a pattern with `//` matches no item, so triples and pattern agree on all items if and only if the triples find nothing by that condition |
| RepoPathDouble.DoubleSlashExample | artifactory/services/utils/repopathfile.go:46-55 | `a*//b` finds `ax/y/b` |
| RepoPathRootItems.AgreeOnRootIff | artifactory/services/utils/aqlquerybuilder.go:23-31 | for every pattern with one slash: the whole query and the pattern agree on all root items if and only if the pattern does not float there and has no dot beside a star that can stand for the stored path; the next two rows are for the other patterns |
| RepoPathRootItems.AgreeOnRootManySlashes | artifactory/services/utils/aqlquerybuilder.go:23-31 | a pattern with more slashes neither finds nor matches any root item |
| RepoPathNoSlash.AgreeWithoutSlashIff | artifactory/services/utils/aqlquerybuilder.go:23-31 | for every pattern without a slash: the whole query finds exactly the items whose repository or full path it matches if and only if it has no dot between two stars |
| RepoPathQuery.NonRecursiveWithinRecursive | artifactory/services/utils/repopathfile.go:85-98 | the non-recursive search finds nothing that the recursive one misses |
| RepoPathDirect.DirectExact | artifactory/services/utils/repopathfile.go:91-133 | for every pattern and item: the non-recursive triples match if and only if, for some star of the repository part or for the text after the last one, the repository matches, the directory part of what is left matches the path and its name part the name; without a directory only root items are found |
| RepoPathDirect.DirectSingleRepo | artifactory/services/utils/repopathfile.go:72-78 | with one repository and a slash: the repository is equal, and the rest of the pattern matches in that way |
| StringOrder.PrefixInterval | utils/io/content/contentreader.go:440-445 | the strings that start with a prefix form an interval of the order that the sort compares by |
| StringOrder.LessAtDifference | utils/io/content/contentreader.go:440-445 | the first character in which two strings differ decides their order, and a proper prefix comes first |
| StringOrder.SortKeysSorts | utils/io/content/contentreader.go:447-471 | sorting keys permutes them into order, in either direction |
| StringOrder.SortKeysDirection | utils/io/content/contentreader.go:447-471 | ascending, no key is followed by a lesser one; descending, by a greater one |
| SortBuffers.SortAndSaveBufferToFile | utils/io/content/contentreader.go:447-471 | a buffer is written in the order of its keys |
| SortBuffers.SplitToSortedBuffers | utils/io/content/contentreader.go:283-323 | every buffer is strictly sorted, all but the last hold the maximal number of records and the last no more, and the buffers give for each key the first record of the input, for every buffer size |
| ContentReader.MergeSortedReadersByCalculatedKey | utils/io/content/contentreader.go:325-380 | merging strictly sorted sources ends and gives the simple sort without duplicates of all their records |
| ContentReader.SortContentReaderByCalculatedKey | utils/io/content/contentreader.go:260-279 | the external sort equals the simple one: one record per key, the first in input order; the buffer size has no influence |
| SortedRecords.SortDistinctSorts | utils/io/content/contentreader.go:256-260 | the simple sort is strictly sorted and looks up for every key the first record of its input |
| SortedRecords.SortDistinctDirection | utils/io/content/contentreader.go:256-260 | ascending by increasing keys, descending by decreasing ones |
| SortedRecords.SortedUnique | utils/io/content/contentreader.go:260-279 | strict order and lookups determine the sorted list |
| ReaderMerge.MergeSortedReaders | utils/io/content/contentreader.go:383-438 | the merge that keeps duplicates repeatedly takes the first least head |
| ReaderMerge.MergePermutes | utils/io/content/contentreader.go:383-438 | the merge writes exactly the records of its sources |
| ReaderMerge.MergeSorts | utils/io/content/contentreader.go:383-438 | merging sorted sources gives a sorted result |
| ReaderMerge.MergeStable | utils/io/content/contentreader.go:405-425 | merging sorted sources is stable: records with equal keys come out in the order of the sources and as they stand in each |
| ResultItems.Keys | artifactory/services/utils/searchutil.go:370-401 | the sort key, path and location of a stored item; for a root folder path and key differ by the final slash |
| DeleteUtils.FilterCandidateToBeDeleted | artifactory/services/utils/deleteutils.go:103-142 | candidates go to sorted buffers of the maximal size, other items to the result |
| DeleteUtils.ChunksFlat | artifactory/services/utils/deleteutils.go:103-142 | the buffers together hold exactly the candidates, in order |
| DeleteUtils.ChunksFit | artifactory/services/utils/deleteutils.go:103-142 | all buffers but the last hold the maximal number of candidates, and the last no more |
| DeleteUtils.SavedMembers | artifactory/services/utils/deleteutils.go:118-140 | the saved buffers are sorted, hold only candidates, and hold an item for the path of every candidate |
| DeleteUtils.SavedIsLast | artifactory/services/utils/deleteutils.go:118-131 | of the candidates of a buffer with one path the last one is saved, once for each of them |
| DeleteUtils.WriteCandidateDirsToBeDeleted | artifactory/services/utils/deleteutils.go:42-101 | the two cursors compute the sweep of the merged folders against the files to keep |
| DeleteUtils.DotFolder | artifactory/services/utils/deleteutils.go:64-67 | a first folder named "." is not compared by its own path: it is dropped while a file is left, and written otherwise |
| DeleteSweep.SweepExact | artifactory/services/utils/deleteutils.go:42-101 | on folders in path order, the sweep writes exactly the folders that no protected file's location lies in |
| DeleteSweep.SweepSafeIff | artifactory/services/utils/deleteutils.go:27-41 | for any order of folders: the sweep is safe whatever the protected files if and only if no folder's contents sort before the path of an earlier folder |
| DeleteSweep.UnsafeWitness | artifactory/services/utils/deleteutils.go:42-95 | an inversion comes with a protected file whose folder is written |
| SearchUtil.FilterTopChainResults | artifactory/services/utils/searchutil.go:478-517 | the loop computes the top-chain filter |
| SearchUtil.TopChainCovers | artifactory/services/utils/searchutil.go:476-517 | the kept items cover exactly the paths that all items, apart from those named ".", cover |
| SearchUtil.TopChainIsAntichain | artifactory/services/utils/searchutil.go:476-517 | on ascending keys no kept item lies in a kept folder |
| SearchUtil.FilterBottomChainResults | artifactory/services/utils/searchutil.go:437-474 | the loop computes the bottom-chain filter |
| SearchUtil.BottomChainExact | artifactory/services/utils/searchutil.go:437-474 | on descending keys, with nothing beneath a file, an item is kept if and only if no listed item lies beneath it |
| DirReduction.ReduceBottomChainDirResult | artifactory/services/utils/searchutil.go:519-538 | the composition of the descending sort and the bottom-chain filter |
| DirReduction.ReducedToBottom | artifactory/services/utils/searchutil.go:437-538 | for any search results, with nothing beneath a file: the reduction keeps exactly the items that no other listed item lies beneath |
| DirReduction.InKeyOrderFacts | artifactory/services/utils/searchutil.go:523-538 | in either direction the sort lists, in strict order, only items of the input, and the key of each of them |
| Delete.GetSortedArtifactsToNotDelete | artifactory/services/delete.go:242-262 | the files to keep: filtered, buffered, merged |
| Delete.RemoveNotToBeDeletedDirs | artifactory/services/delete.go:195-240 | the folders that survive the sweep after the other items; nothing without exclude properties or candidate folders |
| Delete.GetPathsToDelete | artifactory/services/delete.go:58-84 | the composition of filter, buffers, merge, sweep, sort and reduction |
| Delete.DeleteWithoutExclusions | artifactory/services/delete.go:75-77 | without exclude properties, whatever the second search would find: the final list covers exactly the paths that the candidates cover, and lists only candidates |
| Delete.PlannedIsReduced | artifactory/services/delete.go:78-84 | whatever the search results: the final list is in strict key order, and nothing in it lies in a folder that is in it |
| Delete.FoldersSafeIff | artifactory/services/delete.go:195-240 | for any candidates: no folder that holds a file to keep is deleted, whatever the search for those files finds, if and only if the merged folders have no inversion |
| Delete.SufficientOrder | artifactory/services/utils/searchutil.go:370-396 | there is no inversion without root folders, or when all candidate folders fit one buffer |
| Delete.DeleteIsSafe | artifactory/services/delete.go:195-240 | if the merged folders have no inversion and no candidate file is a file to keep, nothing in the final list is, or is a folder containing, a file to keep |
| DeleteLimits.DeleteIsSafeIff | artifactory/services/delete.go:58-84 | for any candidates and buffer size: the final list takes no file to keep, whatever the second search finds besides the candidate files, if and only if the merged folders have no inversion |
| DeleteLimits.DeleteIsSafeInPractice | artifactory/services/delete.go:58-84 | in particular without root folders, or with one buffer |
| Delete.ReductionCovers | artifactory/services/utils/searchutil.go:519-538 | sorting and reducing changes what is listed, not which paths are covered |
| DeleteLimits.DeleteIsExactIff | artifactory/services/delete.go:58-84 | for any candidates and buffer size: the final list covers exactly the candidate files and the candidate folders, with their contents, that hold no file to keep, whatever the second search finds, if and only if no candidate folder lies at a repository's root |
| DeleteLimits.RootFolderNotExact | artifactory/services/utils/deleteutils.go:42-95 | a root folder is not deleted because of a file in the neighbour whose name it starts |
| DeleteExample.TwoBuffersUnsafe | artifactory/services/utils/searchutil.go:370-396 | three root folders and buffers of two: a folder that holds a protected file is deleted |
| DeleteExample.NeighbourKeepsA | artifactory/services/utils/searchutil.go:385-396 | one root folder and one buffer: `r/a` is not deleted because of `r/ab/x` |
| BuildSearch.GetBuildNameAndNumberFromProps | artifactory/services/utils/artifactoryutils.go:172-184 | the last name and the last number among the properties read |
| BuildSearch.ReadsUntilSet | artifactory/services/utils/artifactoryutils.go:172-184 | the properties are read up to the first place at which both values are set, or to the end |
| BuildSearch.LastValueIsLast | artifactory/services/utils/artifactoryutils.go:172-184 | the value of a key is that of the last property with it among those read |
| BuildSearch.BuildOfUniqueProps | artifactory/services/utils/artifactoryutils.go:172-184 | an item with one name and one number property has their values, in any order |
| BuildSearch.IsBuildContained | artifactory/services/utils/artifactoryutils.go:513-520 | true if and only if the build is listed |
| BuildSearch.IsBuildNameContained | artifactory/services/utils/artifactoryutils.go:523-530 | true if and only if a listed build has the name |
| BuildSearch.FillPriorityFiles | artifactory/services/utils/artifactoryutils.go:452-491 | every item is filed at its priority unless an earlier item of its checksum was better; the map ends with the best priorities. What the priorities amount to is said by the rows of BuildSelection |
| BuildSearch.EmitChooses | artifactory/services/utils/artifactoryutils.go:492-509 | reading a priority file against the mutable map, where a deleted key reads as 0, writes exactly the chosen items of that priority |
| BuildSearch.FilterBuildAqlSearchResults | artifactory/services/utils/artifactoryutils.go:442-510 | the output: all exact matches, and for a known checksum without one the first item of its best priority |
| BuildSearch.ChosenRepresents | artifactory/services/utils/artifactoryutils.go:442-452 | every known checksum that occurs is represented, by one item unless there are exact matches |
| BuildSelection.WrittenOfChecksum | artifactory/services/utils/artifactoryutils.go:428-512 | for every checksum, in terms of the builds: nothing is written if it is not known; else all its items that belong to one of the builds, in the order of the input; else the first that belongs to another number of one of the builds; else the first |
| BuildSelection.ExactsWritten | artifactory/services/utils/artifactoryutils.go:468-472 | all items of known checksums that belong to one of the builds are written, in the order of the input |
| BuildSelection.BetterFirst | artifactory/services/utils/artifactoryutils.go:486-511 | items that belong to one of the builds come first, and those that belong to another number of one before the others |
| PropsJoin.UpdateProps | artifactory/services/utils/artifactoryutils.go:386-405 | one pass over the records updates the buffered items, and writes them in order |
| PropsJoin.LastIsLoaded | artifactory/services/utils/artifactoryutils.go:354-405 | of the items of a buffer with one path only the last gets properties |
| PropsJoin.LoadMissingProperties | artifactory/services/utils/artifactoryutils.go:345-379 | the buffers are joined one after the other |
| PropsJoin.BatchesFit | artifactory/services/utils/artifactoryutils.go:356-366 | a full buffer holds exactly the maximal number of different paths, and the open one fewer |
| PropsJoin.BatchExactIff | artifactory/services/utils/artifactoryutils.go:386-405 | joining a buffer is the plain left join, for all records, if and only if its paths are distinct |
| PropsJoin.BatchedJoinExact | artifactory/services/utils/artifactoryutils.go:345-405 | for items with distinct paths the buffered join is the plain order-preserving left join, for every buffer size |
| PropsJoin.BatchedJoinExactIff | artifactory/services/utils/artifactoryutils.go:345-405 | in general it is so if and only if no buffer holds a path twice |
| Download.RangesCover | http/httpclient/client.go:568-591 | the chunks are contiguous, start at 0, end at the file's size and stay inside it |
| Download.ChunksAreEven | http/httpclient/client.go:568-591 | the chunks are even: all but the last are equally long, and the last is longer by less than the number of chunks |
| Download.RangesValidIff | http/httpclient/client.go:714 | every requested range is valid if and only if the file has at least as many bytes as there are chunks |
| Download.InvalidRangeExample | http/httpclient/client.go:714 | one byte in three chunks: the first request asks for the bytes from 0 to -1 |
| Download.ChunksRebuild | http/httpclient/client.go:623-658 | the chunks in order are the file |
| Download.MergeChunks | http/httpclient/client.go:623-658 | the merge appends the chunks in order up to the first that cannot be read; there is no error if and only if all were read and the checksum, unless unknown or skipped, is the expected one |
| Download.CollectResults | http/httpclient/client.go:606-620 | the code after the wait computes the collected result, including the case in which it would dereference nil |
| Download.StepKeepsInv | http/httpclient/client.go:577-605 | every step of the loop and of the workers keeps the invariant: an early end of the loop has a recorded reason |
| Download.RunResult | http/httpclient/client.go:560-620 | in every run the result is the error with the lowest index, or the unexpected response with the lowest index, or the last response after all chunks; never a nil slot |
| DownloadRuns.RunCanStep | http/httpclient/client.go:577-620 | in every state that a run reaches some step is possible unless the download has returned |
| DownloadRuns.RunsEnd | http/httpclient/client.go:577-620 | every run is finite: at most five steps for each chunk and two more |
| DownloadRuns.GoodRun | http/httpclient/client.go:577-620 | for all lists of answers with status 206 some run gives them to the workers and returns the last response |
| DownloadRuns.FailureEndsStarts | http/httpclient/client.go:578-604 | in every run, after a worker has written its error at most one more chunk is started, and after one has written its unexpected response none is |
| Download.DownloadRebuilds | http/httpclient/client.go:485-520 | a run that returns status 206 leaves chunks whose merge is the file |
| TokenRefresh.StepKeepsInv | auth/servicedetails.go:236-266 | every step of every thread keeps the invariant |
| TokenRefresh.MutualExclusion | auth/servicedetails.go:248-249 | at most one thread is between lock and unlock |
| TokenRefresh.OncePerToken | auth/servicedetails.go:250-261 | in every interleaving each token is replaced by at most one authentication, and it is the shared one that is replaced |
| TokenRefresh.LeavesWithShared | auth/servicedetails.go:263-265 | a thread on the refresh path leaves with the shared token, obtained after its stale one, and keeps its other headers |
| TokenRefresh.CreatedIsCurrent | auth/servicedetails.go:268-275 | a new request carries the token of the last authentication |
| TokenRefresh.UrlBelongsToToken | auth/servicedetails.go:200-209 | outside the two writes of an authentication the shared address belongs to the shared token |
| TokenRefresh.NoDeadlock | auth/servicedetails.go:248-265 | a thread can step, or waits for a holder that can |
| TokenRefresh.OneServesAll | auth/servicedetails.go:236-266 | for any number of threads some run authenticates once, and ends with every thread holding the new headers over its own |
| VcsCaches.AfterValid | utils/vcsdetails.go:76-91 | storing what a search found, after an eviction if there were too many entries, keeps the cache valid, its counter exact and its size bounded |
| VcsCaches.VcsCache.GetVcsDetails | utils/vcsdetails.go:50-84 | the answer, the error and the whole new cache |
| VcsCaches.NearestIsNearest | utils/vcsdetails.go:45-49 | the search without a cache is decided by the longest prefix of the path that has details or cannot be read |
| VcsCaches.LookupIsNearest | utils/vcsdetails.go:50-91 | a lookup in a valid cache answers what the search without a cache finds, errors included, and leaves a valid and bounded cache |
| VcsCaches.LookupsAreNearest | utils/vcsdetails.go:50-121 | over every sequence of lookups, evictions included, answers equal the uncached search, the counter counts the entries, and they are at most the maximum plus the depth |
| VcsCaches.PassedIsStored | utils/vcsdetails.go:72-84 | after a lookup without error every directory that it passed is in the cache with the answer |
| VcsCaches.NextFromCache | utils/vcsdetails.go:50-84 | the next lookup of the path gives the same answer from the cache, whatever the file system holds by then |
| VcsCaches.NothingIsLost | utils/vcsdetails.go:86-91 | a lookup changes no entry of the cache as long as the counter is not above the maximum |
| VcsCaches.EvictionKeepsRepositories | utils/vcsdetails.go:86-91 | the repositories that were read stay in the cache, and when the directory map had too many entries only what the lookup passed is left in it |
| EscapedSplit.SplitWhileIgnoringBackslashPrefixSeparators | artifactory/services/utils/properties.go:84-96 | gluing split values in place equals reading characters: a separator splits unless a backslash stands before it, whose place it then takes |
| EscapedSplit.SplitUndoesJoin | artifactory/services/utils/properties.go:84-96 | splitting undoes escaping and joining if and only if no value but the last ends in a backslash |
| UrlEscape.UnescapeUndoesEscape | artifactory/services/utils/properties.go:109-141 | the URL escape of keys and values is undone by unescaping, whatever follows |
| UrlEscape.EscapedIsSent | artifactory/services/utils/properties.go:120-127 | an escaped text holds letters, digits and - _ . ~ + % only, so that it holds no separator |
| UrlEscape.EscapedByte | artifactory/services/utils/properties.go:120-127 | which text each byte becomes: itself, a plus for a space, or a percent sign and two upper-case hexadecimal digits |
| UrlEscape.EscapeConcat | artifactory/services/utils/properties.go:120-127 | a text is escaped byte by byte |
| ItemProperties.Properties.ParseAndAddProperties | artifactory/services/utils/properties.go:38-55 | the new properties and the error, a malformed property stopping the parse without removing duplicates |
| PropertiesParsed.ParseStopsAt | artifactory/services/utils/properties.go:38-55 | the parser stops at the first part that is neither empty nor a non-empty key, an equals sign and a non-empty value, reports it, and keeps what it read before, duplicates included |
| PropertiesParsed.CollectedValues | artifactory/services/utils/properties.go:45-53 | without an error every key ends with its old values followed by those that the parts give it, in order |
| ItemProperties.Properties.RemoveDuplicateValues | artifactory/services/utils/properties.go:160-177 | every list keeps the first occurrence of each value |
| ItemProperties.DistinctKeepsFirst | artifactory/services/utils/properties.go:160-177 | the first occurrence of each value stays, right after those that stay before it |
| ItemProperties.Properties.AddProperty | artifactory/services/utils/properties.go:98-107 | a new value goes to the end of its list, an old one changes nothing |
| ItemProperties.AddIsMerge | artifactory/services/utils/properties.go:98-107 | adding a property is merging with it |
| ItemProperties.Properties.GetSortedKeys | artifactory/services/utils/properties.go:57-69 | all keys in strictly increasing order |
| ItemProperties.Properties.ToEncodedString | artifactory/services/utils/properties.go:109-141 | the encoding in the order of the sorted keys, in both forms; what a receiver reads in it is said by the next two rows |
| PropertiesSent.SentJoined | artifactory/services/utils/properties.go:109-141 | for all properties: split at the semicolons, each part at its first equals sign, and then unescaped, the sent text gives each key, in order, and its values joined by commas, whatever separators they hold |
| PropertiesSent.SentRepeated | artifactory/services/utils/properties.go:109-141 | read in the same way, the form that repeats the keys gives each key with each of its values, in order |
| ItemProperties.SortedKeysUnique | artifactory/services/utils/properties.go:57-69 | the order is predictable: there is one sorted list of keys |
| ItemProperties.MergeProperties | artifactory/services/utils/properties.go:179-191 | the values of all structs, in turn, without duplicates |
| ItemProperties.MergedValues | artifactory/services/utils/properties.go:179-191 | a merge holds exactly the keys and values of its parts |
| EscapedSplit.JoinUndoesSplit | artifactory/services/utils/properties.go:84-96 | joining the escaped parts gives back every string that was split |
| PropertiesExact.ParseUndoesEncodeIff | artifactory/services/utils/properties.go:32-55 | for all properties: parsing the unescaped encoding gives the properties back if and only if the format can express them |
| PropertiesRoundTrip.ExpressibleIff | artifactory/services/utils/properties.go:32-82 | it can if every key is non-empty without separators, its values are distinct, at least one, not just an empty one, without semicolons, and only the last may end in a backslash, for keys but the greatest not even that one |
| PropertiesExact.CollectedWeight | artifactory/services/utils/properties.go:38-55 | parsing collects at most as many characters as it reads, and as many only if each part has a key of its own |
| PropertiesRepeatedExact.ParseUndoesRepeatedIff | artifactory/services/utils/properties.go:109-141 | for the form that repeats a key for each value, and all properties: parsing the unescaped encoding gives them back if and only if every key is non-empty without separators and has a value, no value is empty, repeated or has a comma or semicolon, and no value but the last of the greatest key ends in a backslash |
| PropertiesRepeatedExact.LongerToken | artifactory/services/utils/properties.go:84-96 | why it is necessary: in properties that come back, a key or value with a semicolon can only come from a longer one with a semicolon |
| PropertiesRoundTrip.ParseInTwoSteps | artifactory/services/utils/properties.go:38-55 | parsing two strings in turn adds what parsing both in one string adds, with the same error |
| Identifier.ParseNameAndVersion | artifactory/services/utils/artifactoryutils.go:189-233 | the loop over the parts finds the last unprotected slash, and each policy decides without one |
| Identifier.LastDelimiterIsLast | artifactory/services/utils/artifactoryutils.go:206-217 | that slash has no backslash before it, and every later one has |
| Identifier.IdentifierRoundTrip | artifactory/services/utils/artifactoryutils.go:186-233 | name and version are recovered from their escaped join if and only if the name is not empty and does not end in a backslash |
| Identifier.NameAlone | artifactory/services/utils/artifactoryutils.go:189-233 | from an escaped name alone the latest policy recovers the name, with the version LATEST, and without that policy there is an error |
| ParenthesesUtils.ScanParentheses | utils/parenthesesutils.go:109-124 | closing the last unclosed entry keeps the open entries equal to a stack and the closed ones equal to its pairs |
| ParenthesesUtils.GetAllParentheses | utils/parenthesesutils.go:109-134 | the list of all pairs in the order of their open positions |
| ParenthesesUtils.PairIffBalanced | utils/parenthesesutils.go:109-124 | two parentheses form a pair if and only if what lies between them is balanced |
| ParenthesesUtils.PairsNest | utils/parenthesesutils.go:109-124 | two pairs are disjoint or nested |
| ParenthesesUtils.AllParenthesesExact | utils/parenthesesutils.go:108-134 | the list holds exactly the pairs with balanced interiors, in order |
| Placeholders.SortNoDuplicates | utils/parenthesesutils.go:136-148 | the compacted list is strictly increasing with the same values |
| Placeholders.GetPlaceHoldersValues | utils/parenthesesutils.go:81-93 | the numbers between braces, increasing |
| PlaceholderNumbers.ValuesOfTarget | utils/parenthesesutils.go:81-93 | for every target: a decimal numeral between braces, with or without a sign and leading zeros, adds the number it denotes if that fits 64 bits, any other text adds nothing, and what follows the closing brace is read in the same way |
| PlaceholderNumbers.DigitsAreNumeral | utils/parenthesesutils.go:84-87 | every text of digits is a numeral after zeros, so that the two cases are all there are |
| PlaceholderNumbers.ValuesExample | utils/parenthesesutils.go:81-93 | `{2}/{1}` has the values 1 and 2, and `a{12}` the value 12 |
| Placeholders.FindParentheses | utils/parenthesesutils.go:95-106 | exactly the pairs named by placeholders; an index below zero if and only if a placeholder's value is below 1 |
| Placeholders.PanicExamples | utils/parenthesesutils.go:101-102 | `{0}` and `{-1}` are such targets |
| Placeholders.IsPresent | utils/parenthesesutils.go:29-36 | true if and only if a pair starts or ends at the index |
| Placeholders.RemovePlaceholderParentheses | utils/parenthesesutils.go:44-56 | the pattern without the parentheses that placeholders name |
| Placeholders.RemovedIff | utils/parenthesesutils.go:44-56 | what is left is the string in which every other character stands as many places earlier as there are named parentheses before it |
| Placeholders.AddEscapingParentheses | utils/parenthesesutils.go:61-79 | a backslash before each parenthesis that no placeholder of either target names |
| Placeholders.EscapedAt | utils/parenthesesutils.go:67-79 | every character stands as many places later as there are parentheses left alone before it, and such a parenthesis one more, after its backslash |
| Placeholders.IsPlaceholdersUsed | utils/parenthesesutils.go:38-42 | the answer, the panic included, and when it is what the comment promises: by the condition of UsedIsRightIff |
| Placeholders.MarksAreWholePairs | utils/parenthesesutils.go:95-106 | placeholders name whole pairs |
| Placeholders.RemovalKeepsMatching | utils/parenthesesutils.go:44-56 | after removing whole pairs, the pairs of what is left are exactly the other pairs, moved |
| Placeholders.EscapingRoundTrip | utils/parenthesesutils.go:67-79 | unescaping undoes the escaping if and only if no parenthesis left alone has a backslash before it |
| Placeholders.UsedIsRightIff | utils/parenthesesutils.go:38-42 | for all patterns and targets, the answer tells whether a placeholder of the target names a pair of the pattern if and only if: the target has such a placeholder and is not the pattern without the named pairs, or it has none and is the pattern |
| Placeholders.UsedIsReported | utils/parenthesesutils.go:38-42 | for a pattern without an opening brace a placeholder that is used is always reported |
| Placeholders.UsedIsWrong | utils/parenthesesutils.go:38-42 | the answer is true for a pattern and a target without any placeholder |
| Placeholders.UsedIsMissed | utils/parenthesesutils.go:38-42 | the answer is false for `({1})` and `{1}`, where the placeholder is used |
| GraphScan.UniqueDependencies.Populate | xray/services/scan.go:190-205 | the recursive update of the map, pruning included |
| GraphScan.FlattenGraph | xray/services/scan.go:173-188 | one leaf for each collected id under one root |
| GraphScan.OnlyIdsAll | xray/services/scan.go:190-205 | only ids of the graph are collected, and none is lost again |
| GraphScan.FlattensAllIds | xray/services/scan.go:195-205 | all ids are collected if occurrences of an id with children have the same ids below them and do not nest, wherever the id occurs without children |
| GraphScan.FlattensEveryListIff | xray/services/scan.go:190-205 | for every graph: every list of its nodes, in any order, is flattened to all its ids if and only if occurrences of an id with children have the same ids below them and each node alone is flattened to all its ids |
| GraphScan.FlattensUnnestedIff | xray/services/scan.go:190-205 | where occurrences do not nest, the first half of that condition decides |
| GraphScan.EqualSubtreesSuffice | xray/services/scan.go:195-205 | in particular if they are equal |
| GraphScan.CutLosesIds | xray/services/scan.go:198-203 | without the condition an id is lost behind a cut leaf |
| GraphScan.NestingLosesIds | xray/services/scan.go:198-203 | nested occurrences with the same ids below them lose an id: x over y over x over y and w |

## Left out

- HTTP, TLS, SSH login, JSON, temporary files, logging, progress display, the computation of checksums and all errors of input and output but those that mergeChunks meets in chunk files: readers and writers are sequences, and what a search, an authentication or a range request returns is a parameter or a nondeterministic step.
- Delete.GetPathsToDelete: the branches for AQL and build specifications, which only pass on search results, and the change of the specification's properties before the second search, whose result is a parameter.
- GraphScan.FlattensAllIds: is sufficient for one graph in one order; what is necessary for all lists of the nodes is FlattensEveryListIff. For a single list, what a skipped occurrence loses depends on all occurrences visited before it.
- Identifier.ParseNameAndVersion: the logged messages and the text of errors.
- VcsCaches.VcsCache.GetVcsDetails: concurrent lookups and the 32-bit counter are not modelled; the file system does not change and its separator is a slash.
- TokenRefresh.OncePerToken: assumes that every authentication yields a token that was not issued before; the wait before an authentication and the clock are nondeterministic steps.
- Download.RunResult: reads and writes of one shared variable are atomic steps; Go's memory model allows more for the unsynchronized flags, which only matters for how early the loop ends.
- Download.RangesCover: integers are unbounded, and by this lemma no product exceeds the file size, which fits 64 bits.
- UrlEscape.UnescapeUndoesEscape: the library reports malformed escapes; the model leaves them as they are, and never meets one in an encoded string.
- Placeholders.FindParentheses: positions count characters where Go counts bytes; the parentheses and braces are ASCII.
- RepoPathQuery.TranslationExact: a `?` in a pattern is an ordinary character, as for the translation; exclusion queries and the formatting of queries are not modelled.
- Regular-expression code for Ant patterns and target paths, retries and polling, goroutines and channels of the content readers, and the service wrappers, whose claims would be about single loops or calls.
