# Bacula catalog structures, verified in Dafny

Bacula keeps, beside its simple tables, several fast structures: queries that pick the jobs and file versions of a
restore, a directory cache for the file browser, an interval tree of the file indexes to restore, a bulk path for storing
file attributes, and a ring of lines in the console. Each has a simple meaning that it must agree with. This project models
the code of these structures and proves the agreement for all inputs, over whole runs and, where shapes or dialects differ,
for every shape and dialect.

An SQL table is a set, a map or a multiset of rows, and each statement is one atomic step that succeeds. Code that changes
things step by step is a class or a method with its loop; each such method is proved against a specification function or
predicate, and the properties are proved about that.

`dafny verify dfyconfig.toml` checks the whole project. Lemmas carry `{:induction false}`: every induction is written out in a
proof, none is left to the verifier.

| File | What it holds |
|---|---|
| `Catalog.dfy`, `Dialects.dfy` | rows of the tables read by the queries; the databases whose SQL differs |
| `RecentVersion.dfy` | the newest version of each file: two query shapes, with and without DeltaSeq |
| `RestoreChain.dfy` | the chain of jobs to restore, the reference job of a backup, and the reconstruction theorem |
| `PathNames.dfy` | parent, base name, path/file split, and the theory of ancestors |
| `PathStore.dfy` | the Path table behind its one-entry cache |
| `PathHierarchy.dfy` | PathHierarchy and PathVisibility, and the updates that fill them |
| `DirectorySizes.dfy` | memoised sizes and file counts of directories |
| `DirectoryListing.dfy` | listing the sub-directories of a directory |
| `HardLinks.dfy`, `LikePattern.dfy` | the hard-link closure and the prefix pattern of a restore list |
| `FileIndexTree.dfy`, `FalseGaps.dfy` | the interval tree, and exactly when its intervals can come to overlap |
| `Bootstrap.dfy` | writing and scanning bootstrap records |
| `BatchInsert.dfy`, `CopyFormat.dfy` | storing attributes in bulk, and the COPY line for PostgreSQL |
| `LinePool.dfy`, `LineHistory.dfy` | the line pool of the console, and exactly when it forgets only the oldest lines |

Main results, by the name of the lemma or method: `RestoreReconstruction`, `ChainCompleteIff`, `ReferencesInChainIff`,
`QueriesAgree`, `PlainAgreesIffNoTopTie`, `BuildPathHierarchy`, `UpdatePathHierarchyCache`, `FileKeepsExactIff`,
`ComputeSizeAndCount` with `PathForestOk`, `LsDirs`, `RunCoversExactly`, `AlwaysIncreasingIff`, `NonDecreasingRunIsCanonical`,
`WriteFindex` with `CanonicalIsUnique`, `WriteBsrItem` with `TotalIsExactIff`, `ScanBsrItem`, `StoreInBulk` beside
`StoreOneByOne`, `CacheIsTransparent`, `InsertHardlinks`, `PatternMatchesPrefix`, `CopyRoundTrip`, `PutLine` with
`ForgetsOldestIff`.

Where the code does less than its purpose suggests, the exact condition is proved, and an input that fails it is given as a
lemma where the condition alone does not show one:

- The accurate chain compares `StartTime > EndTime` in whole seconds. It holds the last Full, the last Differential after it and
  every later job if and only if none of the jobs it joins starts in the very second the one before it ended
  (`ChainCompleteIff`; `TouchingHistory` is a history where it does not).
- The chain compares FileSet names, the reference job of a backup compares FileSetIds, and names whether or not the request
  gives one. The jobs of the chain are relative to the jobs they build on if and only if FileSetId and name are kept from each
  to the next (`ReferencesInChainIff`). When a FileSet is edited and then put back they are not
  (`RevertedFileSetLeavesTheChain`); when it is edited and a new Full follows they are (`EditedFileSetKeepsItsChain`).
- The two shapes of the plain recent-version query agree if and only if no file has two entries of the same newest date
  (`PlainAgreesIffNoTopTie`; `TwoJobsOfOneDate` is such a catalog).
- The intervals of file indexes stay disjoint in every run over a stream, whatever the shapes of the tree, if and only if no
  index that was added between two others is added again later, nor an index beside it (`AlwaysIncreasingIff`). The stream
  1, 3, 2, 3 overlaps without any rebalancing (`RepeatOverlaps`). The covered set stays exact all the same.
- The total of a bootstrap item is the number of distinct files if and only if every index at which two selected records touch
  is itself selected, and the first selected record does not start at the index carried in from another job
  (`TotalIsExactIff`).
- A hard link whose target is selected too adds the target again. The restore table stays free of repeats if and only if no
  target was in it (`StaysUniqueIff`, `SelectedTargetIsRepeated`).
- When a line does not fit behind the newest one, the pool goes on at its start. `putline` forgets only the oldest lines, and
  puts the new one behind the others, if and only if the line fits there or no line in use that it spares lies behind the newest
  one, the next block aside (`ForgetsOldestIff`). Otherwise an old line at the end of the pool comes up before the one stored
  last (`PreviousKeptIff`).
- A file recorded for a job that is cached already leaves the cache exact if and only if it is a deletion or its directory is
  shown (`FileKeepsExactIff`).
- A one-character path other than `/` is its own parent (`ParentDirShorter`). The hierarchy stays closed, but such a path is its
  own child, so that the recursion over sizes would call itself for it again (`OwnParentIsOwnChild`); sizes are stated for the
  other paths. Such a path never lies below the root (`ReachesRootIffRooted`).

## Model

| member | source | states |
|---|---|---|
| RecentVersion.DatesAreUnionDates | bacula/src/cats/sql_cmds.c:269-283 | the dates grouped by the MAX form, of normal and of base files, are those of the rows the DISTINCT ON form ranks |
| RecentVersion.NewestIsJoined | bacula/src/cats/sql_cmds.c:284-290 | every newest row survives the join back on date, path and name, in both forms |
| RecentVersion.JoinedDate | bacula/src/cats/sql_cmds.c:284-290 | a joined row belongs to a job of the list or a base job of it, and has the date of some newest row of its path and name |
| RecentVersion.QueriesAgree | bacula/src/cats/sql_cmds.c:265-377 | with distinct dates and one entry a file in each job, GROUP BY and DISTINCT ON return the same rows, the newest of each file, base files included, plainly and per DeltaSeq |
| RecentVersion.PlainAgreesIffNoTopTie | bacula/src/cats/sql_cmds.c:265-313 | the plain forms agree if and only if no two jobs of one date hold the newest version of a file |
| RecentVersion.TieIsJoinedTwice | bacula/src/cats/sql_cmds.c:284-290 | on such a tie the join returns the file twice |
| RecentVersion.TwoJobsOfOneDate | bacula/src/cats/sql_cmds.c:287 | a catalog with such a tie |
| RecentVersion.JoinedOnce | bacula/src/cats/sql_cmds.c:284-290 | a row is matched by one group only, so the join repeats no row, although the per-DeltaSeq form does not join on DeltaSeq |
| RestoreChain.LimitOne | bacula/src/cats/sql_cmds.c:417-426 | ORDER BY JobTDate DESC LIMIT 1 leaves a job of greatest date, or nothing |
| RestoreChain.ListByDate | bacula/src/cats/sql_get.c:1546-1548 | lists every job of the temporary table once, in date order |
| RestoreChain.GetAccurateJobIds | bacula/src/cats/sql_get.c:1457-1557 | returns, in date order, the last Full before the limit, the last Differential after it and all Incrementals after both; the Full alone for other levels |
| RestoreChain.ChainColumns | bacula/src/cats/sql_get.c:1457-1544 | every job of the chain is a successful backup of the client, of a FileSet of the same name and of the Job resource if the request names one, and starts at the wanted date (or now) or before; Differentials and Incrementals only for an Incremental or virtual Full request, and after the Full has ended; one Full and at most one Differential |
| RestoreChain.ChainTakesFull | bacula/src/cats/sql_cmds.c:417-426 | no Full in these columns is newer than that of the chain |
| RestoreChain.ChainTakesDifferential | bacula/src/cats/sql_get.c:1497-1520 | a Differential in these columns that starts after the Full has ended is not newer than the one in the chain |
| RestoreChain.ChainTakesIncremental | bacula/src/cats/sql_get.c:1522-1544 | an Incremental in these columns is in the chain if and only if it starts after the Full and the Differential of the chain have ended |
| RestoreChain.FindJobStartTime | bacula/src/cats/sql_find.c:106-190 | succeeds if and only if there is a reference job, and returns its start time and its name, or its prior name; otherwise the preset date of zeros and no name. The reference is, in columns, the last successful Full (for an Incremental the last backup, if there is a Full) of the same type, name and client, and FileSetId if given |
| RestoreChain.SelectedIndex | bacula/src/cats/sql_cmds.c:417-426 | the rows of one level the statements select are the jobs of the history before the limit |
| RestoreChain.FullIs | bacula/src/cats/sql_get.c:1484-1495 | the first statement finds the last Full of the history |
| RestoreChain.DiffIs | bacula/src/cats/sql_get.c:1497-1520 | the second finds the last Differential, if it comes after the last Full |
| RestoreChain.IncrementalsAre | bacula/src/cats/sql_get.c:1522-1544 | the third finds exactly the jobs after the last Full and Differential |
| RestoreChain.ChainIs | bacula/src/cats/sql_get.c:1446-1557 | the chain is the last Full, the last Differential after it, and every job after both |
| RestoreChain.ChainCompleteIff | bacula/src/cats/sql_get.c:1499-1544 | the chain has all of these if and only if the jobs it joins do not touch within a second |
| RestoreChain.TouchingJobIsDropped | bacula/src/cats/sql_get.c:1505 | a job that starts in the second its predecessor ended is not in the chain |
| RestoreChain.TouchingHistory | bacula/src/cats/sql_get.c:1529 | a Full that ends in the second an Incremental starts: the Incremental is left out |
| RestoreChain.NoFullNoChain | bacula/src/cats/sql_get.c:1505-1531 | without a Full before the date the chain is empty, whatever else there is |
| RestoreChain.ReferenceIs | bacula/src/cats/sql_find.c:123-161 | a Differential refers to the last Full of its own name and FileSetId, an Incremental to the last job of its own name and FileSetId |
| RestoreChain.RefersToBaseIff | bacula/src/cats/sql_find.c:119-161 | a job of the chain refers to the job it builds on if and only if both have one name and FileSetId |
| RestoreChain.ReferencesInChainIff | bacula/src/cats/sql_get.c:1497-1544 | all jobs of the chain refer to the jobs they build on if and only if name and FileSetId are kept along it |
| RestoreChain.EditedFileSetKeepsItsChain | bacula/src/cats/sql_find.c:119-121 | an edited FileSet followed by a new Full meets that condition |
| RestoreChain.OwnIsNewer | bacula/src/cats/sql_cmds.c:297-309 | an entry of the job itself is newer than any base file it uses |
| RestoreChain.NewestTells | bacula/src/cats/sql_cmds.c:297-309 | so the newest entry of a file within one job is its own entry, or a base file it has no own entry for |
| RestoreChain.ViewAdvances | bacula/src/cats/sql_get.c:1363-1370 | adding a newer job that records the change from one file state to another moves the newest-entry view from the one to the other |
| RestoreChain.ChainRepresents | bacula/src/cats/sql_get.c:1446-1451 | the newest entries over the chain up to any job are the file state at that job |
| RestoreChain.RestoreSetIsRanked | bacula/src/cats/sql_cmds.c:284-290 | the jobs of a chain and the base jobs of its Full have distinct dates and hold each file once |
| RestoreChain.QueryIsNewest | bacula/src/cats/sql_cmds.c:265-313 | over a chain either query shape returns exactly the newest entries, each file once |
| RestoreChain.NewestRowsShow | bacula/src/cats/sql_get.c:1379-1387 | of the newest entries the default list shows each file of the state once, with its attributes, and nothing else; the deleted-only list each file recorded but gone, and nothing else; the list of all files both |
| RestoreChain.FileListIs | bacula/src/cats/sql_get.c:1374-1440 | over a chain the file list, by either query shape, is the newest entries, for each DeltaSeq if delta parts are asked for, with a positive FileIndex, one that is not for the deleted-only list, or any for the list of all files |
| RestoreChain.RestoreReconstruction | bacula/src/cats/sql_get.c:1374-1557 | for any history of successful jobs, with base files and with any FileSetIds outside the chain, the file list over the accurate chain, by either query shape, shows the file state at the last job that starts at the wanted date or before (at the last Full for request levels other than Incremental and virtual Full): no deleted file in the default list, no existing one in the deleted-only list |
| RestoreChain.RevertedFileSetLeavesTheChain | bacula/src/cats/sql_find.c:119-121 | when a FileSet is edited and put back, an Incremental refers to a Full outside its chain, and the condition fails |
| PathNames.StrLen | bacula/src/cats/bvfs.c:301 | the position of the first NUL |
| PathNames.ParentDirInPlace | bacula/src/cats/bvfs.c:298-324 | the buffer is left holding the parent directory of the string it held |
| PathNames.BasenameDir | bacula/src/cats/bvfs.c:330-349 | points behind the last separator before the trailing one, or at the start |
| PathNames.BasenameIsLastComponent | bacula/src/cats/bvfs.c:326-349 | the base name is the last component, with its trailing separator, for every path but the empty one and `//`, which is left whole |
| PathNames.SplitPathAndFile | bacula/src/cats/sql.c:630-679 | path and file name join to the full name; the path ends in the last separator, and is the whole name when there is none |
| PathNames.UpToLastSlashAt | bacula/src/cats/bvfs.c:316-322 | the backward scan stops at the end of the longest prefix ending in a separator |
| PathNames.ParentDirShorter | bacula/src/cats/bvfs.c:298-324 | the parent is strictly shorter, except for the empty string and a lone character other than `/` |
| PathNames.ParentPlusBasename | bacula/src/cats/bvfs.c:291-349 | parent and base name join to the path if and only if it is a root or keeps a separator without its trailing one |
| PathNames.AncestorsClosed | bacula/src/cats/bvfs.c:366-413 | ancestors are closed under parent and are prefixes |
| PathNames.AncestorsChain | bacula/src/cats/bvfs.c:366-413 | of two ancestors of one directory the shorter is an ancestor of the longer |
| PathNames.ReachesRootIffRooted | bacula/src/cats/bvfs.c:291-324 | walking up ends at the empty root if and only if the path starts with `/` or a drive root |
| PathNames.ParentIsLongestDirPrefix | bacula/src/cats/bvfs.c:291-324 | on rooted directories, `//` inside included, the parent is the longest proper directory prefix, and is such a directory or empty |
| PathNames.AncestorIffDirPrefix | bacula/src/cats/bvfs.c:291-324 | there "ancestor" means "directory prefix" |
| PathStore.PathTable.CreatePathRecord | bacula/src/cats/sql_create.c:581-650 | returns the row of the path, adding one only if there is none; the table stays one-to-one and the cached triple is that of the path |
| PathStore.PathTable.GetPathRecord | bacula/src/cats/sql_get.c:189-238 | returns the row of the path, or 0 exactly when there is none |
| PathStore.StepIsPlain | bacula/src/cats/sql_create.c:590-594 | one step, a cache hit included, answers and changes the table as a table without a cache |
| PathStore.CacheIsTransparent | bacula/src/cats/sql_create.c:581-650 | over any interleaving of creates, gets and paths inserted by other connections, answers and table are those without a cache |
| PathHierarchy.RowAdded | bacula/src/cats/bvfs.c:386-405 | the row inserted for the missing path makes its parent the only one that may be missing |
| PathHierarchy.Browser.AddHierarchyRow | bacula/src/cats/bvfs.c:386-405 | adds the row from the path to its true parent, found or created; memory cache and table grow together |
| PathHierarchy.Browser.BuildPathHierarchy | bacula/src/cats/bvfs.c:351-418 | ends with every row mapping a path to its true parent and every parent the root or with a row; only the current path is missing inside the loop; the memory cache stays within the table |
| PathHierarchy.Browser.HierarchisePaths | bacula/src/cats/bvfs.c:472-511 | afterwards every shown path of the job but the root has a hierarchy row |
| PathHierarchy.DialectsAgree | bacula/src/cats/bvfs.c:513-547 | all three statements add exactly the parents of shown paths that are not shown |
| PathHierarchy.MissingEnds | bacula/src/cats/bvfs.c:549-551 | a run that adds nothing leaves the shown paths closed under parent, any other shows a path more |
| PathHierarchy.Browser.AddMissing | bacula/src/cats/bvfs.c:549-551 | one run of the statement keeps the bounds and either shows a path more or finds the set closed |
| PathHierarchy.Browser.CloseVisibility | bacula/src/cats/bvfs.c:549-551 | the do/while loop ends with exactly the directories and all their ancestors shown, other jobs untouched |
| PathHierarchy.AncestorIsShown | bacula/src/cats/bvfs.c:513-551 | in a closed set every ancestor of a shown path has a PathId and is shown |
| PathHierarchy.ClosedIsExact | bacula/src/cats/bvfs.c:453-551 | paths shown between the directories and their ancestors, once closed, are exactly these |
| PathHierarchy.ExactExtends | bacula/src/cats/bvfs.c:453-551 | paths added later are no ancestors of a cached job's directories: an exact job stays exact |
| PathHierarchy.Browser.UpdatePathHierarchyCache | bacula/src/cats/bvfs.c:425-569 | makes the job exact and marks it, keeps every other cached job exact, and does nothing for a job already marked |
| PathHierarchy.Browser.UpdateAll | bacula/src/cats/bvfs.c:795-818 | the same for a list of jobs that share one memory cache |
| PathHierarchy.ExactGrowsIff | bacula/src/cats/bvfs.c:453-461 | more directories leave a job exact if and only if it shows all of them already |
| PathHierarchy.FileKeepsExactIff | bacula/src/cats/bvfs.c:445-461 | a new file leaves all cached jobs exact if and only if its job is not cached, it is a deletion, or its directory is shown |
| PathHierarchy.BaseKeepsExactIff | bacula/src/cats/bvfs.c:445-461 | the same for a base file record |
| PathHierarchy.Browser.AddFile | bacula/src/cats/sql_create.c:958-988 | the invariant survives a file record exactly under that condition, although the record may add a path |
| PathHierarchy.Browser.AddBase | bacula/src/cats/sql_create.c:1111-1127 | so does it survive a base file record |
| PathHierarchy.Browser.CleanVisibility | bacula/src/cats/bvfs.c:779-785 | deletes the rows of jobs that are gone and no others |
| PathHierarchy.Browser.ClearCache | bacula/src/cats/bvfs.c:1324-1338 | empties both tables and all marks |
| DirectorySizes.JobSizes.GetSizeAndCount | bacula/src/cats/bvfs.c:643-663 | sum and number of the files of the job, and of no other, in one directory |
| DirectorySizes.ScanIsTotals | bacula/src/cats/bvfs.c:650-654 | the scan the recursion is compared with is the sum and number of the File rows of that JobId and those PathIds |
| DirectorySizes.FileAdded | bacula/src/cats/bvfs.c:650-654 | a file more changes these totals by exactly its size and one if it is of the job and in the directories, and not at all otherwise; without files they are zero |
| DirectorySizes.SoundKept | bacula/src/cats/bvfs.c:669-672 | completing a subtree keeps it true that a row with a positive size has its whole subtree done |
| DirectorySizes.ProgressStep | bacula/src/cats/bvfs.c:698-706 | adding a child adds the scan of its subtree, disjoint from what was counted |
| DirectorySizes.JobSizes.ComputeSizeAndCount | bacula/src/cats/bvfs.c:665-711 | ends, returns the sum and number of all files of the job at or below the path, leaves every row there with its true totals, and changes no other row |
| DirectorySizes.OwnParentIsOwnChild | bacula/src/cats/bvfs.c:677-683 | a shown path is its own child if and only if it is its own parent |
| DirectorySizes.JobSizes.ComputeUnshown | bacula/src/cats/bvfs.c:665-711 | for a path the job does not show: counts the files of the job in it alone, and changes no row |
| DirectorySizes.JobSizes.UpdateCache | bacula/src/cats/bvfs.c:572-601 | leaves every row at or below the root with the totals of the files of the job at or below it, other rows as they were; changes nothing when the job does not show the root |
| DirectorySizes.PathForestOk | bacula/src/cats/bvfs.c:677-683 | the shown paths of a job form the forest the recursion needs: children are disjoint, longer than their parent, and lead to everything below it |
| DirectorySizes.ExactIsCacheOk | bacula/src/cats/bvfs.c:453-551 | a job with an exact cache meets the assumptions of that theorem |
| DirectorySizes.RootCountsEverything | bacula/src/cats/bvfs.c:572-601 | for a job with rooted paths the total at the root is that of every file of the job in a shown directory |
| DirectoryListing.ListingIsScan | bacula/src/cats/bvfs.c:1172-1182 | once the caches are built, the directories selected are exactly the children of the current path with a file of the chosen jobs at or below them |
| DirectoryListing.BelowIsPrefix | bacula/src/cats/bvfs.c:1172-1182 | with rooted names "at or below" is a prefix test on the strings |
| DirectoryListing.RootShownIff | bacula/src/cats/bvfs.c:1061-1069 | a cached job shows the root if and only if one of its directories is rooted |
| DirectoryListing.FirstIffNotLast | bacula/src/cats/bvfs.c:1079-1082 | in ordered rows, remembering the last path is enough to recognise a new one |
| DirectoryListing.DirHandler.HandlePath | bacula/src/cats/bvfs.c:1077-1094 | lists a directory row of a new path if its FileIndex is missing or positive, or its FileId is 0; remembers the path either way |
| DirectoryListing.DirHandler.ListDirs | bacula/src/cats/bvfs.c:1163-1203 | over ordered rows lists exactly the newest row of each directory, unless its FileIndex is not positive and its FileId not 0, each path once |
| DirectoryListing.ShownByNewest | bacula/src/cats/bvfs.c:1083-1085 | a directory without an entry of its own is never hidden; otherwise it is hidden if and only if the newest has a FileIndex that is not positive and a FileId other than 0 |
| DirectoryListing.FirstIsNewest | bacula/src/cats/bvfs.c:1185-1193 | in the result of the join the first row of a directory is shown if and only if its newest own entry, if any, is no deletion, in columns of the File table |
| DirectoryListing.ListedIff | bacula/src/cats/bvfs.c:1163-1203 | a directory is listed if and only if it is selected and has no newest own entry with a FileIndex that is not positive and a FileId other than 0 |
| DirectoryListing.LsDirs | bacula/src/cats/bvfs.c:1140-1208 | shows each child that has a file of the chosen jobs at or below it once, unless its newest own entry has a FileIndex that is not positive and a FileId other than 0, and nothing else |
| HardLinks.HashKeyIsOneToOne | bacula/src/cats/bvfs.c:1375-1376 | two links have the same key only when they are the same link; the halves of a key are JobId and link index |
| HardLinks.LinkCollector.CheckHardlinks | bacula/src/cats/bvfs.c:1364-1396 | appends the target of a hard link if it is not in the list, and nothing otherwise; no target is listed twice; the hash table gains the key of each link and each first name |
| HardLinks.LinkCollector.CollectAll | bacula/src/cats/bvfs.c:1421-1425 | the list holds each referenced target exactly once |
| HardLinks.InsertInBatches | bacula/src/cats/bvfs.c:1435-1466 | the INSERT statements together carry the list, in order, the last one up to 501 links and the others exactly 501 |
| HardLinks.JoinLinks | bacula/src/cats/bvfs.c:1468-1475 | the join with distinct links adds each matching file row once |
| HardLinks.InsertHardlinks | bacula/src/cats/bvfs.c:1409-1490 | the table gains, once each, the target rows of all selected hard links, and nothing else |
| HardLinks.StaysUniqueIff | bacula/src/cats/bvfs.c:1378-1393 | the table stays free of repeats if and only if it was and held no target |
| HardLinks.SelectedTargetIsRepeated | bacula/src/cats/bvfs.c:1379-1384 | a first name selected together with a link to it is added a second time |
| LikePattern.BuildPattern | bacula/src/cats/bvfs.c:1556-1568 | the buffer, twice the length and two more, holds the escaped directory; the result is that and a percent sign |
| LikePattern.PatternMatchesPrefix | bacula/src/cats/bvfs.c:1556-1582 | under LIKE with ESCAPE the pattern matches a string if and only if the directory is a prefix of it |
| LikePattern.PatternSelectsSubtree | bacula/src/cats/bvfs.c:1578-1582 | among rooted directories it selects the subtree |
| FileIndexTree.AddCovers | bacula/src/dird/bsr.c:509-564 | for a tree of any shape one index is added to the covered set, and nothing else |
| FileIndexTree.AddKeepsIncreasing | bacula/src/dird/bsr.c:462-478 | an index not covered yet keeps the intervals disjoint and ascending, although the comparator is no total order |
| FileIndexTree.AddIsAppend | bacula/src/dird/bsr.c:509-564 | an index not below the others changes the in-order list in a way that does not depend on the shape |
| FileIndexTree.RunCoversExactly | bacula/src/dird/bsr.c:509-564 | after any run, with any rebalancing, the intervals cover exactly the non-zero absolute indexes added |
| FileIndexTree.DistinctRunIsIncreasing | bacula/src/dird/bsr.c:509-564 | when no index is added twice they are disjoint and ascending |
| FileIndexTree.NonDecreasingRunIsCanonical | bacula/src/dird/bsr.c:500-504 | for a non-decreasing stream they are the same list for every shape, disjoint, ascending and never adjacent |
| FalseGaps.CoveredIsKept | bacula/src/dird/bsr.c:546-558 | an index covered already, and at no false gap, changes nothing, whatever the shape |
| FalseGaps.GapBreaks | bacula/src/dird/bsr.c:462-478 | at a false gap some shape makes two intervals overlap |
| FalseGaps.StepKeepsIncreasingIff | bacula/src/dird/bsr.c:462-478 | one more index keeps the intervals apart in every shape if and only if it is at no false gap |
| FalseGaps.NewGapIsBridged | bacula/src/dird/bsr.c:546-554 | a new index leaves a false gap only where it bridges two intervals |
| FalseGaps.GapStays | bacula/src/dird/bsr.c:546-554 | a false gap stays as long as nothing overlaps |
| FalseGaps.OverlapStays | bacula/src/dird/bsr.c:546-554 | an overlap never goes away |
| FalseGaps.AlwaysIncreasingIff | bacula/src/dird/bsr.c:500-564 | over a stream the intervals stay disjoint and ascending in every run if and only if no bridging index, nor one beside it, is added again |
| FalseGaps.RepeatOverlaps | bacula/src/dird/bsr.c:546-554 | the stream 1, 3, 2, 3 leaves the intervals 1-3 and 3-3 without any rebalancing |
| FileIndexTree.LinkedIsAdd | bacula/src/lib/rblist.c:71-90 | linking the spare node as a leaf is what the value tree does |
| FileIndexTree.ExtendedIsAdd | bacula/src/dird/bsr.c:546-558 | extending the node found, and no other, is what the value tree does |
| FileIndexTree.Bsr.Insert | bacula/src/lib/rblist.c:47-90 | returns the node that compares equal on the search path, or links the new node as a leaf |
| FileIndexTree.Bsr.AddFindex | bacula/src/dird/bsr.c:509-564 | the tree of nodes holds what adding to the tree of values gives; nodes are not shared, the spare is not one of them, and a spare kept is used before a node is made |
| FileIndexTree.Bsr.Rebalance | bacula/src/lib/rblist.c:92-140 | any shape with the same nodes in order keeps the list of intervals |
| Bootstrap.CanonicalIsUnique | bacula/src/dird/bsr.c:93-109 | a set of indexes has one list of maximal runs |
| Bootstrap.SizeIsCardinality | bacula/src/dird/bsr.c:119-125 | for disjoint intervals the count is the size of the covered set |
| Bootstrap.MergeFrom | bacula/src/dird/bsr.c:87-109 | the inner loop merges a group without a gap and stops at the next one |
| Bootstrap.WriteFindex | bacula/src/dird/bsr.c:77-130 | the lines cover exactly the selected indexes of the record; for disjoint ascending intervals, false gaps included, they are the maximal runs and the count is the size of the set |
| Bootstrap.IsVolumeSelected | bacula/src/dird/bsr.c:136-148 | holds if and only if the record holds a selected index, that is, the count is positive |
| Bootstrap.UnionGrows | bacula/src/dird/bsr.c:394-401 | a further record adds the size of its selection, less one when it touches at a selected index |
| Bootstrap.WriteBsrItem | bacula/src/dird/bsr.c:348-406 | for any intervals: one entry for each selected record, in order, with exactly its selected indexes; the total is the sum of the counts less one for each record taken for a continuation; names of records not selected are zapped |
| Bootstrap.TotalIs | bacula/src/dird/bsr.c:389-403 | for disjoint intervals and ascending records the total is the number of distinct selected indexes, less the touches at an index not selected and less the touch carried in |
| Bootstrap.TotalIsExactIff | bacula/src/dird/bsr.c:395-405 | the total is that number if and only if every index at which two selected records touch is selected and the first one does not start at the index carried in |
| Bootstrap.ScanFindex | bacula/src/dird/bsr.c:638-707 | for any intervals the ranges listed, with the index carried in, hold exactly the selected indexes of the record; if no intervals overlap, ascending and each once |
| Bootstrap.ScanBsrItem | bacula/src/dird/bsr.c:712-733 | exactly the selected indexes in some record are listed, for any intervals and records; if no intervals overlap and the records ascend, each once and in ascending order |
| BatchInsert.FillDialectsAgree | bacula/src/cats/sql_cmds.c:908-926 | NOT EXISTS and EXCEPT add the same paths |
| BatchInsert.NamedColumns | bacula/src/cats/sql_create.c:958-1025 | the row of a record holds its own columns, a path and a name that join to the full name at the last separator, and "0" for an absent digest |
| BatchInsert.Catalog.CreateFileAttributesRecord | bacula/src/cats/sql_create.c:958-1025 | one record adds its row, as seen through path names |
| BatchInsert.Catalog.SqlBatchInsert | bacula/src/cats/mysql.c:802-854 | the rows held, in the table or in the pending statement, grow by the record and by nothing else; MySQL sends the statement with every 32nd row and not before |
| BatchInsert.Catalog.SqlBatchEnd | bacula/src/cats/mysql.c:782-796 | the temporary table then holds all rows held, each once |
| BatchInsert.Catalog.FillPaths | bacula/src/cats/sql_create.c:877-881 | every path of the batch has a row, paths stay one-to-one, old rows are kept |
| BatchInsert.Catalog.JoinIntoFile | bacula/src/cats/sql_create.c:888-896 | the join adds one row for each batch row |
| BatchInsert.Catalog.WriteBatchFileRecords | bacula/src/cats/sql_create.c:835-906 | stores all rows held, or none when the job is cancelled, and starts afresh |
| BatchInsert.Catalog.CreateBatchFileAttributesRecord | bacula/src/cats/sql_create.c:920-948 | stored and held rows together grow by the record, also when a write comes first; if that write finds the job cancelled, the rows held are gone and the record starts a new batch |
| BatchInsert.Catalog.StoreOneByOne | bacula/src/cats/sql_create.c:958-988 | a stream stored one by one adds its rows in order |
| BatchInsert.Catalog.StoreInBulk | bacula/src/cats/sql_create.c:920-948 | stored in bulk with writes at any points it adds the same rows in the same order |
| CopyFormat.PutEscaped | bacula/src/cats/postgresql.c:996-1023 | one character is copied, or escaped |
| CopyFormat.CopyEscape | bacula/src/cats/postgresql.c:990-1028 | at most len characters up to the NUL are escaped, within twice the length and one for the NUL |
| CopyFormat.UnescapeEscape | bacula/src/cats/postgresql.c:990-1028 | unescaping undoes escaping |
| CopyFormat.EscapedIsClean | bacula/src/cats/postgresql.c:992-1011 | no raw tab, newline or carriage return survives, and the text is never the NULL marker |
| CopyFormat.BuildLine | bacula/src/cats/postgresql.c:1143-1157 | the line is the seven fields, path and name escaped, between tabs |
| CopyFormat.SplitJoin | bacula/src/cats/postgresql.c:1155-1157 | splitting at tabs gives the fields back |
| CopyFormat.CopyRoundTrip | bacula/src/cats/postgresql.c:1143-1157 | reading a line gives back its seven values, and its only newline is the last character |
| CopyFormat.FullNameRoundTrip | bacula/src/cats/sql.c:630-679 | the path and name read back join to the original full name |
| LinePool.HeadersOutsideText | bacula/src/console/conio.c:152-162 | the text of a block overlaps no header and no other block, and ends within the pool |
| LinePool.LinksInverse | bacula/src/console/conio.c:152-162 | next and previous links are inverse |
| LinePool.ImageLayout | bacula/src/console/conio.c:156-162 | the fields of the header lie in their order, two links and a length of eight bytes each and a flag of one |
| LinePool.ImageIsOneToOne | bacula/src/console/conio.c:156-162 | the bytes of a header tell the header |
| LinePool.HeaderWritten | bacula/src/console/conio.c:852-879 | writing in one header reaches no text and no other header |
| LinePool.TextWritten | bacula/src/console/conio.c:878 | writing in the text of one block reaches no header and no other text |
| LinePool.Pool.StoreHeader | bacula/src/console/conio.c:856-879 | the bytes of one header are brought up to date, all texts are kept |
| LinePool.MergeKeepsTiles | bacula/src/console/conio.c:856-861 | swallowing the next block keeps the tiling and the ring |
| LinePool.CutKeepsTiles | bacula/src/console/conio.c:862-877 | splitting off an aligned block keeps them, and both parts can hold a header |
| LinePool.Pool.constructor | bacula/src/console/conio.c:812-821 | one used block with an empty line spans the pool |
| LinePool.Pool.Concatenate | bacula/src/console/conio.c:856-861 | ends with a block large enough, never crosses the end of the pool, and swallows only blocks that start within the size needed |
| LinePool.Pool.Split | bacula/src/console/conio.c:862-877 | splits if and only if more than 39 bytes would be left beyond header and line, then leaves at most 7; loses no block, and the new one is free |
| LinePool.Pool.Choose | bacula/src/console/conio.c:850-855 | the block after the newest line, or the start of the pool when the line does not fit behind it |
| LinePool.PreviousOfStartIff | bacula/src/console/conio.c:836-842 | from the start of the pool a line is the previous one if and only if it is the last one in use |
| LinePool.PreviousKeptIff | bacula/src/console/conio.c:850-861 | after a line stored at the start, the line stored before it is the previous one if and only if the new line does not reach it and no line in use lies behind it, the next block aside |
| LinePool.PreviousAfter | bacula/src/console/conio.c:845-881 | a line stored elsewhere has the line stored before it directly behind it |
| LinePool.Pool.PutLine | bacula/src/console/conio.c:845-881 | the line goes to the block after the newest if it fits there, else to the start of the pool; the newest line before stays in use with its bytes and is the previous line whenever the new one does not go to the start, and exactly as in `PreviousKeptIff` when it does; the blocks tile the pool in one ring whose headers are those in the bytes; the newest block is used and holds the line; a line is lost only if it starts where the new one goes, or was next and did not fit; all other lines keep length and bytes |
| LineHistory.HistoryIsVisited | bacula/src/console/conio.c:836-842 | the lines in use, those behind the newest one first and then those up to it, are what `getprev` visits, from the newest to the oldest and round again |
| LineHistory.UsedAfter | bacula/src/console/conio.c:845-881 | after `putline` the lines in use are the new one and exactly those it did not reach and that were not passed over |
| LineHistory.ForgetsOldestIff | bacula/src/console/conio.c:845-881 | the history after `putline` is the one before without some of the oldest lines, and the new line behind it, if and only if the line went behind the newest one, or no line in use that it spares lies behind that one, the next block aside |
| LinePool.Pool.GetNext | bacula/src/console/conio.c:825-832 | ends at the first line in use ahead |
| LinePool.Pool.GetPrev | bacula/src/console/conio.c:836-842 | ends at the first line in use behind |
| LinePool.PrevUndoesNext | bacula/src/console/conio.c:824-842 | from a line in use, the previous line of the next line is the line itself |

## Left out

- Connections, drivers, transactions, locks, retries, logging, and statements that fail. A failure in the middle of a cache
  update leaves partial rows that the invariants do not describe.
- Escaping of SQL literals; the result of a query is taken to be what its text says.
- What the file daemon saves: that a Full records every file, in entries of its own or as base files, and a Differential or
  Incremental the changes and deletions since the reference job, is the assumption `Records` of the reconstruction theorem. The
  other assumptions are that the jobs of a series do not overlap, that their dates rise, that no job holds a file twice, and
  that only Fulls use base files, of older jobs.
- The order of rows in the file list, and the option that drops the MD5 column. Only the job list and the directory listing
  have an order in the model. RestoreReconstruction is about the list without delta parts.
- A further way the per-DeltaSeq query shapes can agree: for them equality is proved from distinct dates, not characterised.
- `insert_missing_delta` and the delta versions of a single file; base files in the restore-list builder.
- The hash table behind the memory cache of PathIds keeps the address of the caller's key; the model keeps the id itself, so sharing
  of the key buffer is not captured.
- PathHierarchy.Browser.UpdatePathHierarchyCache: takes a job that has a Job row. Deleting a file record (`delete_fileid`), which
  leaves visibility as it was, is not modelled.
- PathHierarchy.Browser.UpdateAll: parsing the list of job ids, and choosing the finished jobs without a cache, are not modelled.
- PathStore.PathTable.GetPathRecord: takes the length that goes with the path; `get_root`, which sets an empty path and leaves
  the length as it was, is not modelled.
- PathNames.BasenameDir: takes a path that is not empty.
- DirectorySizes.JobSizes.ComputeSizeAndCount: starts at a path that is not its own parent; at such a path the code would not end.
- Decoding of LStat; sizes, link counts and link targets are fields of the file rows.
- Patterns and LIMIT/OFFSET in listings, the `.` and `..` entries, and `ls_files`.
- Windows builds, where a backslash also separates components.
- The list of jobs in a bootstrap: records are those of one job. `write_bsr` over several jobs, and `add_findex_all`, which adds
  a whole interval, are not modelled. Indexes are unbounded integers.
- The red-black balancing itself: `Rebalance` allows any shape with the same nodes in order.
- Bootstrap.WriteFindex: takes records with FirstIndex at most LastIndex, as they are stored.
- Storage, device, slot and address lines of a bootstrap, and the queries that list files by index.
- BatchInsert.Catalog.WriteBatchFileRecords: the hold on batch mode is a flag that says whether the job was cancelled meanwhile;
  the status field of the job is not modelled.
- BatchInsert.Catalog.StoreInBulk: is about a job that is not cancelled.
- Errors and retries of COPY.
- LinePool.Pool: a header is 32 bytes with the text at offset 25, and words are stored least significant byte first, the layout of
  a 64-bit build. The bytes of a header are written when its fields have changed, not field by field.
- Access control lists, formatting of lists, single-row getters and setters, retention and pruning, and the rest of the console:
  they would add easy members only.
