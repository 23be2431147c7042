# DocManager scanner and catalog handlers in Dafny

This project models the core of DocManager's backend in Dafny:

- the directory scanner, `backend/app/scanner.py`;
- the route handlers that change or read the file catalog, `backend/app/main.py`.

**Scanner.** The scanner does three things:

- It reads the `.docignore` file of a configured directory into a list of shell-style patterns.
- It walks the directory top-down. Subdirectories and files whose base name matches a pattern are pruned or skipped.
- It reconciles what it found with the catalog rows of that directory configuration. New paths get a row, unless their `os.stat` fails. Rows whose path was not found again are deleted. Rows whose path was found again are left exactly as they are.

**Handlers.** The modelled handlers are:

- `get_files`: filter, count, optionally sort, then page;
- `delete_file`;
- `delete_files_bulk`;
- `delete_directory`;
- `add_directory`.

**State.** The catalog is a `Store` class holding the two tables as maps from id to row. Each handler's single `commit` is one assignment of its whole effect to these fields. The files on disk are a `Disk` class. Its map says, for each existing path, whether `os.remove` deletes the file or raises. A directory tree is a datatype of entries, files and subdirectories. In it, an unreadable or symlinked subdirectory is a `ClosedDir` that `os.walk` lists but does not enter.

**Modules.**

- `Wrappers`: `Option` and `Result`.
- `Glob`: the `fnmatch` matcher, proved equal to an existential reference semantics.
- `Paths`: `os.path.join` and the lowercased `os.path.splitext` extension.
- `Ignore`: `str.strip`, line splitting, `load_ignore_patterns` and `is_ignored`.
- `Walker`: the pruned walk, proved equal to a reference "reachable without passing an ignored name" predicate.
- `Catalog`: the rows, the tables and their well-formedness.
- `Scanner`: `scan_directory`. The walk loop and the delete loop are methods. They are proved against the functions `Additions`, `FoundPaths` and `StaleIds`. The committed state is `Apply(files, Reconcile(...))`.
- `Listing`: `get_files` as functions over the table's rows.
- `Handlers`: the four catalog-changing handlers as methods on `Store` and `Disk`.
- `Scenarios`: the end-to-end scenario of `verify_system.py`, restated over the model.

**Database.** The database engine is not part of the modelled source. The model assumes SQLite, the usual engine behind a SQLModel application of this size, in three places:

- `search` is `FileRecord.filename.contains(search)`, that is, a SQL `LIKE '%search%'`. SQLite's `LIKE` ignores ASCII case, so the model compares the lowercased strings.
- A `SELECT` without `ORDER BY` returns the rows by ascending id.
- `ORDER BY` compares integers before text, and text under the `BINARY` collation.

**Sorting.** SQL leaves the relative order of rows with equal sort keys open. The model's choice is a stable sort, which keeps such rows in table order.

**Scan commit.** The unique constraint on `full_path` (backend/app/models.py:20) can reject the scan's commit. This happens when a queued row takes a path that another row of the table already holds, for example a row of a second configured directory nested inside this one. It also happens when two queued rows share a path. SQLAlchemy's flush issues the inserts before the deletes, so the check is made against the table as it was before the scan. A rejected commit changes nothing.

## Model

| member | source | states |
|---|---|---|
| Glob.MatchIffDenotes | backend/app/scanner.py:23 | The matcher accepts a name exactly when the pattern denotes it: `?` takes one character, `*` any run, and every other character takes itself, over the whole name. |
| Glob.Match | backend/app/scanner.py:23 | `fnmatch.fnmatch(name, pattern)` on POSIX: the executable matcher, with `*` tried as empty first and then as one more character. Its meaning is fixed by `Glob.MatchIffDenotes`. |
| Glob.LiteralMatchesItself | backend/app/scanner.py:23 | A pattern without wildcards matches exactly the identical name, case-sensitively. |
| Glob.StarMatchesAll | backend/app/scanner.py:23 | `*` matches every name, the empty one included. |
| Glob.StarSuffix | backend/app/scanner.py:23 | `*` followed by a literal matches exactly the names ending in that literal. |
| Glob.StarFreeLength | backend/app/scanner.py:23 | A pattern without `*` matches only names of its own length. |
| Paths.JoinMeaning | backend/app/scanner.py:46 | `os.path.join(root, name)`: an absolute name replaces root; otherwise root, at most one `/`, then name. There is exactly one `/` when root is non-empty and does not already end in `/`. |
| Paths.Join | backend/app/scanner.py:46 | `posixpath.join` of two parts; characterised by `Paths.JoinMeaning`. |
| Paths.SplitExt | backend/app/scanner.py:57 | `posixpath.splitext(p)[1]`: from the last dot of the last component when something other than dots precedes it, else empty. For a single path component, which is all the scanner passes it, it is pinned by `Paths.SplitExtAtLastDot` and `Paths.ExtensionMeaning`; names holding a `/` are not characterised. |
| Paths.Extension | backend/app/scanner.py:57 | The stored `extension`: the lowercased `splitext` suffix; characterised by `Paths.ExtensionMeaning`. |
| Paths.LastIndexOf | backend/app/scanner.py:57 | `rfind`: the result is -1 or an index of the character, with no occurrence after it. |
| Paths.WithSlash | backend/app/scanner.py:46 | A non-empty directory path with a `/` at its end, the separator `os.path.join` puts before a name. |
| Paths.JoinPlain | backend/app/scanner.py:46 | Joining a non-empty root and a single path component is the root, then one `/` unless the root already ends in one, then the name. |
| Paths.SplitAtSlash | backend/app/scanner.py:46 | A path that ends in a name without `/` splits in one way only into the directory part, ending in `/`, and that name. |
| Paths.LowerOfPhoto | backend/app/scanner.py:57 | `str.lower` of `Photo.JPG` is `photo.jpg`. |
| Paths.LastIndexOfAt | backend/app/scanner.py:57 | An occurrence with none after it is the last occurrence. |
| Paths.LastIndexOfNone | backend/app/scanner.py:57 | No occurrence gives -1. |
| Paths.ExtensionMeaning | backend/app/scanner.py:57 | A non-empty extension is a lowercased, dot-led suffix of the name with no other dot, preceded by something that is not all dots. The extension is empty exactly when every last dot is preceded only by dots (including no dot at all). |
| Paths.SplitExtAtLastDot | backend/app/scanner.py:57 | A last dot that follows something other than dots starts the extension. |
| Paths.ExtensionOfDotfile | backend/app/scanner.py:57 | `.bashrc` has no extension. |
| Paths.ExtensionOfDoubleExtension | backend/app/scanner.py:57 | `a.tar.gz` has extension `.gz`. |
| Paths.ExtensionOfTrailingDot | backend/app/scanner.py:57 | `f.` has extension `.`. |
| Paths.ExtensionIsLowercased | backend/app/scanner.py:57 | `Photo.JPG` and `photo.jpg` both have extension `.jpg`. |
| Paths.ExtensionIgnoresCase | backend/app/scanner.py:57 | Lower-casing a name first does not change its stored extension: names differing only in ASCII case get the same `extension`. |
| Paths.LowerKeepsSeparators | backend/app/scanner.py:57 | Lower-casing keeps every `.` and `/` in place and creates none, so their last occurrences do not move. |
| Paths.SplitExtOfLower | backend/app/scanner.py:57 | `splitext` of the lowered name is the lowered `splitext` suffix. |
| Paths.LowerSlice | backend/app/scanner.py:57 | Lower-casing commutes with slicing and keeps an all-dots run all dots. |
| Ignore.SkipSpace | backend/app/scanner.py:16 | The leading whitespace run from a position ends at the first non-whitespace character. |
| Ignore.SkipSpaceBack | backend/app/scanner.py:16 | The trailing whitespace run ends where a non-whitespace character precedes it. |
| Ignore.TrimStart | backend/app/scanner.py:16 | The result is a suffix of the line, only whitespace was removed, and it does not start with whitespace. |
| Ignore.TrimEnd | backend/app/scanner.py:16 | The result is a prefix of the line, only whitespace was removed, and it does not end with whitespace. |
| Ignore.Strip | backend/app/scanner.py:16 | `str.strip`: the result is empty or has no whitespace at either end. |
| Ignore.StripIsTrimmedSlice | backend/app/scanner.py:16 | The stripped line is a slice of the line with only whitespace around it, and it has no whitespace at its ends. |
| Ignore.Lines | backend/app/scanner.py:15 | The text cut at every line break: at least one piece, and no piece holds a line break. Which pieces, in which order, is fixed by `Ignore.LinesOfBreak` and `Ignore.LinesOfOneLine`. |
| Ignore.LinesOfOneLine | backend/app/scanner.py:15 | Text without a line break is one line; with a final `\n` it is that line and an empty piece. |
| Ignore.LinesOfBreak | backend/app/scanner.py:15 | A line break ends the line before it, and the text after it is cut on its own; with `Ignore.LinesOfOneLine` this fixes the lines of every text, in order. |
| Ignore.Patterns | backend/app/scanner.py:15-18 | There are no more patterns than lines, and every pattern is non-blank, not a `#` comment, and stripped. |
| Ignore.PatternsAppend | backend/app/scanner.py:15-18 | Patterns are taken line by line in file order: the pattern list of concatenated lines is the concatenation of the pattern lists. |
| Ignore.PatternsOfOneLine | backend/app/scanner.py:16-18 | One line yields its stripped form when that is non-empty and does not start with `#`, and nothing otherwise. |
| Ignore.StripOfPattern | backend/app/scanner.py:16 | A string without whitespace at its ends is its own strip. |
| Ignore.SingleLineIgnoreFile | backend/app/scanner.py:9-19 | An ignore file holding one pattern yields exactly that pattern. |
| Ignore.SingleLineIgnoreFileWithNewline | backend/app/scanner.py:9-19 | The same file with a final newline yields the same single pattern. |
| Ignore.LoadIgnorePatterns | backend/app/scanner.py:9-19 | A missing file gives no patterns. An unreadable file raises, which is modelled as an error. A text file gives the stripped, non-blank, non-comment lines in file order. |
| Ignore.CollectPatterns | backend/app/scanner.py:15-18 | The append loop builds exactly `Patterns(lines)`. |
| Ignore.PatternsStep | backend/app/scanner.py:15-18 | One more line appends its stripped form exactly when that form is kept. |
| Ignore.IsIgnored | backend/app/scanner.py:21-25 | A name is ignored exactly when some pattern matches the whole name, so with no patterns nothing is ignored. |
| Ignore.IgnoredIndependentOfOrder | backend/app/scanner.py:21-25 | Only the set of patterns matters: neither order nor repetition changes the answer. |
| Walker.FilesHereMembership | backend/app/scanner.py:42-44 | The files reported from one listing are exactly its files whose names are not ignored. |
| Walker.DirPath | backend/app/scanner.py:38 | The `root` string `os.walk` reports for a directory: the scan root joined with each subdirectory name in turn. |
| Walker.FullPath | backend/app/scanner.py:46 | `os.path.join(root, filename)` for a reported file. |
| Walker.WalkRoot | backend/app/scanner.py:38-47 | The files the pruned walk reports; an unlistable root reports none. Characterised by `Walker.WalkMembership`, `Walker.WalkSkipsIgnored` and `Walker.WalkFindsReachable`; on a well-formed tree each file is reported once (`Walker.WalkPathsDistinct`). |
| Walker.Walk | backend/app/scanner.py:38-47 | One directory of the top-down walk: its own non-ignored files, then everything below its non-ignored subdirectories. |
| Walker.WellFormedTail | backend/app/scanner.py:38 | A well-formed listing stays well formed without its first entry, whose name no other entry shares. |
| Walker.ReachesPlain | backend/app/scanner.py:38-46 | In a well-formed tree, a reported file's name and every directory on its way are single path components. |
| Walker.DirPathShape | backend/app/scanner.py:38 | The directory `os.walk` yields for a chain of subdirectories is at least as long as the root, and strictly longer without a final `/` once the chain is non-empty. |
| Walker.DirPathInjective | backend/app/scanner.py:38 | Two chains of single path components under the same root give the same directory only when they are the same chain. |
| Walker.FullPathInjective | backend/app/scanner.py:46 | Two files with the same full path sit in the same directory under the same name. |
| Walker.DistinctPlacesAppend | backend/app/scanner.py:38-44 | Two lists of files, each without repeats and sharing no place, concatenate without repeats. |
| Walker.FilesHereDistinct | backend/app/scanner.py:42-44 | The files reported from one well-formed listing are at distinct places. |
| Walker.DescendDistinct | backend/app/scanner.py:38-40 | The descent into a well-formed listing reports no place twice. |
| Walker.WalkDistinct | backend/app/scanner.py:38-44 | The walk of a well-formed tree reports no place twice. |
| Walker.WalkPathsDistinct | backend/app/scanner.py:38-46 | Under a non-empty root, the full paths the walk of a well-formed tree reports are pairwise distinct. |
| Walker.FilesHere | backend/app/scanner.py:42-44 | The inner loop over `files`, skipping ignored names; characterised by `Walker.FilesHereMembership`. |
| Walker.Descend | backend/app/scanner.py:40 | The descent after `dirs[:]` dropped ignored names; characterised by `Walker.DescendMembership`; no file twice on a well-formed tree (`Walker.DescendDistinct`). |
| Walker.ReachesUncons | backend/app/scanner.py:38-40 | Reaching a file through a listing means reaching it through the first entry or through the rest. |
| Walker.DescendHeadMembership | backend/app/scanner.py:40 | A subdirectory contributes exactly the files reachable through it when its name is not ignored, and nothing when it is ignored. |
| Walker.DescendMembership | backend/app/scanner.py:38-40 | The descent reports exactly the files strictly below the directory that are reachable without passing an ignored name. |
| Walker.WalkMembership | backend/app/scanner.py:38-47 | The walk reports exactly the reachable files, each with the chain of directory names leading to it. |
| Walker.ReachesNotIgnored | backend/app/scanner.py:40-44 | Nothing on a reached file's way is ignored: neither a directory of its chain nor its own name. |
| Walker.WalkSkipsIgnored | backend/app/scanner.py:40-44 | No reported file lies below an ignored subdirectory name, and no reported file's name is ignored. |
| Walker.WalkFindsReachable | backend/app/scanner.py:38-47 | Every file reachable without passing an ignored name is reported. |
| Walker.DocignoreIsReported | backend/app/scanner.py:38-47 | `.docignore` at the root gets no special treatment: it is reported unless a pattern matches it. |
| Scanner.Additions | backend/app/scanner.py:49-62 | There are at most as many queued rows as found files; they take consecutive ids from the next free one and belong to the scanned directory. What each row holds is fixed by `Scanner.AdditionsRows` and `Scanner.NewRecord`, which paths are queued by `Scanner.AdditionsPaths`. When the found paths are distinct, no two queued rows share a path and there is one row per insertable path (`Scanner.AdditionsDistinct`). |
| Scanner.ExistingPaths | backend/app/scanner.py:33-34 | `existing_paths`: the full paths of the rows of this directory configuration. |
| Scanner.FoundPaths | backend/app/scanner.py:47 | `found_paths`: the full path of every reported file, stat or no stat. |
| Scanner.NewRecord | backend/app/scanner.py:52-61 | The inserted row takes its name, directory path, size and both timestamps from the found file and its stat; its full path is the directory path joined with the name; its extension is the lowercased `splitext` suffix of the name; it carries the given id and configuration id. |
| Scanner.AdditionsRows | backend/app/scanner.py:49-62 | Every queued row is the row built from one found file that is new and whose stat succeeded, under the id it receives on insertion. |
| Scanner.BuiltFrom | backend/app/scanner.py:49-62 | The predicate `Scanner.AdditionsRows` uses: a row is the one built from some new, stat-able found file under a given id. |
| Scanner.Insertable | backend/app/scanner.py:49-51 | The found paths that are new and whose stat succeeds; equal to the queued paths by `Scanner.AdditionsPaths`. |
| Scanner.StaleIds | backend/app/scanner.py:67-69 | The rows of this directory whose path was not found. |
| Scanner.Reconcile | backend/app/scanner.py:33-69 | The changeset of one scan: the stale rows to delete and the rows to insert; its effect is stated by `Scanner.ScanPaths`, `Scanner.ScanKeepsFoundRows` and `Scanner.ScanKeepsOtherDirectories`. |
| Scanner.Conflicts | backend/app/models.py:20 | The commit breaks the unique `full_path`: two queued rows share a path, or a queued row takes the path of a row already in the table. `Scanner.ConflictsMeaning` proves this is exactly a violation of the unique `full_path` in the committed table. |
| Scanner.Apply | backend/app/scanner.py:62-71 | The table after the commit: the old rows minus the stale ones, plus the queued rows under their new ids. |
| Scanner.AsMap | backend/app/scanner.py:62 | The queued rows are keyed by the consecutive ids they receive. |
| Scanner.WalkAndQueue | backend/app/scanner.py:36-62 | The walk loop records every reported path as found and queues exactly `Additions`: one row per new path whose stat succeeds. |
| Scanner.StaleRows | backend/app/scanner.py:66-69 | The delete loop selects exactly the directory's rows whose path was not found. |
| Scanner.ScanDirectory | backend/app/scanner.py:27-71 | An unreadable ignore file aborts the scan with no change. Otherwise, when the commit is accepted, the table becomes the old rows minus the stale ones plus the queued ones, and it stays well formed. A commit that the unique `full_path` rejects changes nothing. `Scanner.ScanCommits` gives when the commit is accepted, and `Scenarios.SystemCheckScan` runs it on the system check's directory. |
| Scanner.SyncCatalog | backend/app/scanner.py:33-71 | The reconcile-and-commit half of the scan: it commits exactly when no queued row collides on `full_path`, and then applies the plan. On a well-formed tree whose paths no other directory's row holds, it commits (`Scanner.ScanCommits`). |
| Scanner.CommittedRow | backend/app/scanner.py:62-71 | Each row of the committed table is either a kept old row or the queued row for its id. |
| Scanner.ConflictsMeaning | backend/app/models.py:20 | For a well-formed table and rows queued under the next free ids, the commit conflicts exactly when the committed table would hold some `full_path` twice, in both directions. |
| Scanner.ConflictBreaksUniqueness | backend/app/models.py:20 | A conflicting queue, placed after every existing id, leaves some `full_path` on two rows. |
| Scanner.AdditionsSnoc | backend/app/scanner.py:49-62 | One more found file at the end queues one more row, taking the next id, exactly when its path is new and its stat succeeds. |
| Scanner.AdditionsDistinct | backend/app/scanner.py:46-62 | When the found paths are pairwise distinct, the queued rows have pairwise distinct full paths, and there is exactly one row per insertable path. |
| Scanner.PathsDistinctSnoc | backend/app/models.py:20 | Appending a row whose path no earlier row has keeps the paths pairwise distinct. |
| Scanner.LastPathIsNew | backend/app/scanner.py:46-49 | With distinct found paths, the last found path is not among the insertable paths before it. |
| Scanner.InsertableCount | backend/app/scanner.py:49-51 | The last found file adds one insertable path exactly when its path is new and its stat succeeds. |
| Scanner.NoConflictsWhenDistinct | backend/app/scanner.py:36-71 | With distinct found paths, none of which another directory's row holds, the commit does not conflict. |
| Scanner.ScanCommits | backend/app/scanner.py:27-71 | The scan of a well-formed tree (distinct names per listing, none holding a `/`) under a non-empty root commits, provided no other directory's row holds one of the paths it finds. |
| Scanner.FirstScanRows | backend/app/scanner.py:62-71 | On the first scan of a directory, the queued rows land under their ids, and they are the directory's only rows afterwards. |
| Scanner.CommitKeepsCatalogValid | backend/app/models.py:20 | A commit that the unique constraint accepts leaves every row under its own id and no full path twice. |
| Scanner.StaleFromRows | backend/app/scanner.py:67-69 | Collecting the stale rows from the query's rows gives the same ids as collecting them from the table. |
| Scanner.QueueStep | backend/app/scanner.py:49-62 | One iteration of the walk loop appends a row exactly when the path is new and its stat succeeds. |
| Scanner.FoundStep | backend/app/scanner.py:47 | One iteration of the walk loop adds that file's path to the found paths. |
| Scanner.AdditionsPaths | backend/app/scanner.py:49-62 | The queued rows' paths are exactly the found paths that are new and whose stat succeeded. |
| Scanner.PathsOfSnoc | backend/app/scanner.py:62 | Queueing one more row adds exactly its path. |
| Scanner.InsertableSnoc | backend/app/scanner.py:49-51 | One more found file adds its path to the insertable paths exactly when the path is new and its stat succeeds. |
| Scanner.ScanKeepsOtherDirectories | backend/app/scanner.py:33 | Rows of other directories are untouched, and every inserted row belongs to the scanned directory. |
| Scanner.ScanKeepsFoundRows | backend/app/scanner.py:63-69 | A row of the scanned directory survives, unchanged, exactly when its path was found again; it is never updated, even if the file's size or mtime changed. |
| Scanner.ScanPaths | backend/app/scanner.py:33-69 | After the commit, the directory's paths are the old paths that were found again plus every new found path whose stat succeeded. A found file whose stat failed is therefore neither inserted nor deleted. |
| Scanner.ScanPathsKept | backend/app/scanner.py:63-69 | Every path of the directory after the commit was kept or inserted. |
| Scanner.ScanPathsGained | backend/app/scanner.py:49-69 | Every kept or inserted path is a path of the directory after the commit. |
| Scanner.AdditionsNone | backend/app/scanner.py:49 | Nothing is queued when every found file whose stat succeeds already has a row. |
| Scanner.RescanChangesNothing | backend/app/scanner.py:34-69 | Rescanning an unchanged tree right after a committed scan deletes nothing and inserts nothing. |
| Scanner.KnownAfterScan | backend/app/scanner.py:34-69 | After a scan, the directory's paths were all found, and every found file whose stat succeeds has a row. |
| Scanner.NoStaleWhenAllFound | backend/app/scanner.py:67-69 | No row is stale when every path of the directory was seen. |
| Catalog.RowsBetween | backend/app/main.py:127 | The rows with ids in a range: exactly the table's rows in that range, by ascending id. |
| Catalog.Store.Rows | backend/app/main.py:127 | `select(FileRecord)` without ordering: every row of the table once, by ascending id. |
| Catalog.Store.constructor | backend/app/models.py:11-25 | An empty, well-formed catalog. |
| Listing.OccursFrom | backend/app/main.py:116 | The substring search succeeds exactly when the needle occurs at that position or later. |
| Listing.LowerTwice | backend/app/main.py:116 | Lowercasing twice is lowercasing once. |
| Listing.SearchIgnoresCase | backend/app/main.py:116 | The search ignores ASCII case in the needle and in the file name. |
| Listing.SearchExample | backend/app/main.py:116 | `Report` finds `annual_report.PDF`. |
| Listing.Filtered | backend/app/main.py:114-118 | The rows kept are exactly those satisfying every active condition. An absent or empty `search` or `extension` imposes nothing, and `extension` is exact equality. |
| Listing.SearchMatches | backend/app/main.py:116 | `filename LIKE '%search%'`: the lowercased search text occurs in the lowercased name. |
| Listing.Selects | backend/app/main.py:114-118 | The `where(*conditions)` of the query: each present, non-empty filter must hold. |
| Listing.ColumnNamedMeaning | backend/app/main.py:131-133 | A `sort_by` value selects a column exactly when it is that column's name; any other value sorts nothing. |
| Listing.StrLeTotal | backend/app/main.py:134-137 | `BINARY` text comparison orders any two strings. |
| Listing.StrLeTransitive | backend/app/main.py:134-137 | `BINARY` text comparison is transitive. |
| Listing.PrecedesTotal | backend/app/main.py:134-137 | `ORDER BY` a column, ascending or descending, orders any two rows. |
| Listing.PrecedesTransitive | backend/app/main.py:134-137 | That order is transitive. |
| Listing.OrderByIsTotalPreorder | backend/app/main.py:134-137 | `order == "desc"` sorts descending, any other value ascending, and both are total preorders. |
| Listing.Insert | backend/app/main.py:131-137 | Insertion adds exactly the one row: the multiset grows by it. |
| Listing.InsertOrdered | backend/app/main.py:131-137 | Inserting into an ordered sequence keeps it ordered. |
| Listing.SortOrdered | backend/app/main.py:131-137 | The sorted rows are ordered by the column. |
| Listing.SortPermutes | backend/app/main.py:131-137 | Sorting only reorders: same rows, same multiplicities. |
| Listing.Sort | backend/app/main.py:131-137 | `ORDER BY`: stable insertion sort under the column's order; proved ordered by `Listing.SortOrdered` and a permutation by `Listing.SortPermutes`. |
| Listing.Page | backend/app/main.py:139 | `OFFSET skip LIMIT limit`: at most `limit` rows, the rows from position `skip` on, and all remaining rows when the limit does not bite. A negative offset counts as 0, and a negative limit sets no bound. |
| Listing.FilteredAscending | backend/app/main.py:127-129 | Filtering keeps table order. |
| Listing.Selection | backend/app/main.py:127-137 | The main query before paging: the filtered rows, sorted when `sort_by` names a column; characterised by `Listing.SelectionMeaning`. |
| Listing.GetFiles | backend/app/main.py:114-142 | The response: the page of the selection and the count of the filtered rows; characterised by `Listing.GetFilesTotal` and `Listing.GetFilesItems`. |
| Listing.IdsOfAscending | backend/app/main.py:121-124 | Rows with strictly ascending ids have as many ids as rows. |
| Listing.IdsOfSnoc | backend/app/main.py:121-124 | The last of strictly ascending rows adds a new id. |
| Listing.GetFilesTotal | backend/app/main.py:120-124 | `total` is the number of rows satisfying the conditions, independent of `skip`, `limit` and sorting. |
| Listing.SelectedIdsOfRows | backend/app/main.py:121-124 | Counting selected rows over the query's rows counts the selected ids of the table. |
| Listing.SelectionMeaning | backend/app/main.py:127-137 | Before paging, the result holds exactly the selected rows, once each. They are ordered by the column when `sort_by` names one, and by ascending id otherwise. |
| Listing.GetFilesItems | backend/app/main.py:139-142 | `items` is the selection from position `skip` on, in order, with exactly `limit` rows when that many remain and a non-negative `limit` is given, and all remaining rows otherwise; every item is a row of the table satisfying the conditions. |
| Listing.PageOfSelection | backend/app/main.py:139-140 | Every row of the page is a selected row of the table. |
| Listing.NoConditionsCountEverything | backend/app/main.py:114-124 | With no search and no extension, `total` is the size of the table. |
| Listing.LimitOneListsOneRow | verify_system.py:74-75 | `limit=1` on a non-empty table lists exactly one row. |
| Handlers.Disk.Remove | backend/app/main.py:151-152 | `if os.path.exists: os.remove`: it fails exactly on an existing file whose removal raises. On success the path no longer exists; on failure nothing changes. |
| Handlers.Disk.constructor | backend/app/main.py:151 | A disk with the given files. |
| Handlers.AddDirectory | backend/app/main.py:61-72 | A non-directory gives 400 "Invalid directory path", and an already-configured path gives 400 "Directory already configured", both with no change. A directory that is not yet configured always succeeds: exactly one configuration with a fresh id is added, and the table stays well formed. |
| Handlers.NewDirectoryKeepsPathsUnique | backend/app/models.py:13 | Adding a configuration with a fresh id and an unconfigured path keeps configured paths unique and grows the table by one. |
| Handlers.DeleteDirectory | backend/app/main.py:85-96 | An unknown id gives 404 with no change. Otherwise exactly the directory and the rows with its `directory_config_id` are removed. |
| Handlers.RowIdsOfDirectory | backend/app/main.py:90-92 | The delete loop collects exactly the ids of the rows of that directory. |
| Handlers.DeleteDirectoryKeepsOthers | backend/app/main.py:90-94 | After deleting a directory, the remaining rows are exactly those of other directories, each unchanged. |
| Handlers.DeleteFile | backend/app/main.py:146-158 | An unknown id gives 404, and a disk removal that raises gives 500; both change nothing. An existing row whose file is absent or removable always succeeds: the row is deleted and its file no longer exists on disk. |
| Handlers.Requested | backend/app/main.py:162 | `where(id.in_(file_ids))` keeps exactly the rows whose id was requested. |
| Handlers.RequestedAscending | backend/app/main.py:162 | The requested rows keep table order. |
| Handlers.Deletable | backend/app/main.py:165-172 | The rows the bulk delete removes: requested, present in the table, and with a file that is absent or removable. |
| Handlers.RequestedRows | backend/app/main.py:162 | The requested rows are rows of the table, in table order, and they include every requested id that the table has; ids it does not have are ignored. |
| Handlers.RequestedOfRows | backend/app/main.py:162 | The same, taken from the table's unsorted rows. |
| Handlers.DeleteFilesBulk | backend/app/main.py:162-175 | The rows removed are exactly the requested, existing rows whose file is absent or removable. A row whose removal raises stays. `deleted_count` is the number of rows removed, the table shrinks by exactly that number, and the removed rows' files are gone from disk. |
| Handlers.BulkOutcome | backend/app/main.py:165-174 | The rows the loop removed are the deletable requested ones, and the rest of the table is still well formed. |
| Handlers.DropRows | backend/app/main.py:169-174 | The committed deletions leave the table, which stays well formed and shrinks by their number. |
| Handlers.RemoveRequested | backend/app/main.py:164-172 | The loop removes exactly the rows whose file is absent or removable, counts exactly those, and removes exactly their files. |
| Handlers.NextRowStep | backend/app/main.py:165-170 | In each turn, the current row is not yet deleted, its file is as it was, and it joins the deleted rows exactly when its file is not stuck. |
| Handlers.PathNotGone | backend/app/models.py:20 | By the unique `full_path`, a row not yet deleted has a path that no deleted row had. |
| Handlers.RemoveOneMore | backend/app/main.py:168 | Removing one more path from what is left of the disk. |
| Handlers.PathsOfIdsAdd | backend/app/main.py:168 | Deleting one more row adds exactly its path to the removed paths. |
| Handlers.BulkStep | backend/app/main.py:165-170 | One more requested row joins the deletable set exactly when its file is not stuck. |
| Handlers.DeletableOfKnown | backend/app/main.py:162 | Only the requested ids that are rows of the table matter. |
| Handlers.RemoveRowsCount | backend/app/main.py:169-170 | Deleting existing rows shrinks the table by their number, so `deleted_count` is the number of rows lost. |
| Scenarios.WalkOfThreeFiles | verify_system.py:25-30 | A listing of three files reports the two whose names are not ignored, in listing order. |
| Scenarios.StarLogIgnores | verify_system.py:27-30 | `*.log` ignores `file2.log`, and does not ignore `file1.txt` or `.docignore`. |
| Scenarios.LogFilesAreSkipped | verify_system.py:63-69 | An ignore file reading `*.log` yields that one pattern, and the walk then reports `file1.txt` and `.docignore` but not `file2.log`. |
| Scenarios.SystemCheckTree | verify_system.py:22-30 | The directory the system check creates, `file1.txt`, `file2.log` and `.docignore`, is a well-formed listing. |
| Scenarios.SystemCheckPatterns | verify_system.py:29-30 | The `.docignore` reading `*.log` yields the one pattern `*.log`. |
| Scenarios.SystemCheckNames | verify_system.py:25-30 | The three names are distinct single path components. |
| Scenarios.TwoFileAdditions | verify_system.py:25-30 | Two found files with new paths queue the first, then the second when its stat succeeds, under consecutive ids. |
| Scenarios.ThreeFilePlan | verify_system.py:42-49 | The first scan of three files, the middle one ignored, commits and queues the first file, then the third when its stat succeeds. |
| Scenarios.FirstScanFilenames | verify_system.py:55-69 | After a first scan whose queue starts with a row for one name and holds rows for two names only, the directory has a row for the first name and only rows for those two. |
| Scenarios.FirstScanOfThreeFiles | verify_system.py:42-69 | The first scan of three files, the middle one ignored, commits; afterwards the directory has a row for the first file and only rows for the first and third. |
| Scenarios.SystemCheckScanCommits | verify_system.py:42-69 | Against a table with no row for the new directory and no row holding one of its paths, the scan of the system check's directory commits; afterwards it has a row for `file1.txt` and none for `file2.log`. |
| Scenarios.SystemCheckScan | verify_system.py:42-69 | Steps 3 to 5 of the system check on the store: `scan_directory` returns having committed, a row for `file1.txt` of the directory exists, and none for `file2.log`. |

## Left out

- Authentication, the startup seeding of the admin user, CORS and FastAPI routing are left out. They are plumbing or foreign code.
- `get_directories` and `rescan_directory` are left out. They are a plain read and a background trigger.
- The scheduling of scans as background tasks is left out, and so is any concurrency. Each scan is one call of `Scanner.ScanDirectory`.
- The real filesystem calls are parameters or datatypes: `os.walk` is the `Entry` tree, `os.stat` is a `stat` that may be `None`, `os.path.isdir` is a boolean, and `os.path.exists` plus `os.remove` are the `Disk`.
- `os.walk`'s order of entries is the order of the `Entry` listing. Symlinked and unreadable subdirectories are `ClosedDir` entries, which are not entered.
- The SQL layer (sessions, `func.count`, query building, `refresh`) is not modelled. Each handler's `commit` is one assignment to the catalog.
- Timestamps are opaque integers; `datetime.fromtimestamp` and `datetime.utcnow` are not modelled.
- `print` logging is left out.
- Catalog.Store: ids come from a counter that never reuses a value. SQLite hands out the largest id plus one, so it can reuse the id of a deleted last row. No modelled property depends on the ids' exact values.
- Glob.Match: `fnmatch` character classes (`[...]`, `[!...]`) are not modelled; `[` and `]` match themselves. Patterns using classes therefore match differently.
- Paths.Lower: `str.lower` is modelled on ASCII letters only. Unicode case mapping is left out.
- Catalog.Store.Rows: the database is assumed to be SQLite, and an unordered `SELECT` is assumed to return rows by ascending id; on another engine the unsorted order, the case rule of `search` and the comparison of mixed types may differ.
- Listing.SearchMatches: the `%` and `_` wildcards inside the search text are not modelled as wildcards, and case is ignored for ASCII only, as SQLite's `LIKE` does.
- Listing.Selection: SQL leaves the order of rows with equal sort keys unspecified; the model chooses to keep them in table order, so it promises one order where the database may return another. Text columns are compared under the `BINARY` collation, character by character.
- Listing.ColumnNamed: a `sort_by` naming a non-column attribute of `FileRecord` (a method or a class attribute) is treated as naming no column. In the source it reaches the query builder.
- Ignore.Lines: a line is cut at every line break character, where Python's universal-newline reading treats `\r\n` as one break. The two differ only by empty pieces, which the blank-line rule drops.
- Ignore.IsSpace: the whitespace set of `str.strip` is spelled out character by character; it is not derived from a Unicode table.
- Handlers.DeleteFile: the 500 detail is the fixed text "Failed to delete file from disk", without the exception message that the source appends.
- Handlers.DeleteFilesBulk: the row's `os.remove` failure reason and the printed message are not modelled; a failing removal just keeps the row.
- Scenarios.SystemCheckScan: the system check reads the rows back through `get_files?search=...` after a two-second wait. The model states the directory's rows in the table directly after the scan. The wait, the HTTP calls and the login steps are left out.
- Walker.WalkPathsDistinct and Scanner.ScanCommits: these hold for a well-formed tree, meaning distinct names within each listing and no name holding a `/`, which is what a real directory listing gives. Trees that break this are not covered.
