/**
 * `scan_directory`: load the ignore patterns, walk the directory with
 * pruning, and reconcile the files found with the catalog rows of one
 * directory configuration. Found paths that have no row get one (when their
 * `os.stat` succeeds); rows whose path was not found are deleted; rows whose
 * path was found are left exactly as they are. Everything lands in one
 * commit, which the database refuses as a whole if an inserted `full_path`
 * already belongs to another row.
 */
module Scanner {
  import opened Wrappers
  import opened Ignore
  import opened Walker
  import opened Catalog
  import Paths

  datatype ScanOutcome =
    | Committed
    | IgnoreFileUnreadable   // reading `.docignore` raised: nothing is changed
    | CommitRejected         // the unique constraint on `full_path` refused the commit: nothing is changed

  /** The patterns a readable (or missing) ignore file yields. */
  function PatternsOf(file: IgnoreFile): seq<string>
  {
    match file
    case Text(content) => Patterns(Lines(content))
    case _ => []
  }

  /** `existing_paths`: the full paths of the rows that belong to directory `configId`. */
  function ExistingPaths(files: map<int, FileRecord>, configId: int): set<string>
  {
    set id | id in files && files[id].directoryConfigId == configId :: files[id].fullPath
  }

  /** `found_paths`: the full paths of every reported file, whether or not its stat succeeded. */
  function FoundPaths(root: string, found: seq<Found>): set<string>
  {
    set f | f in found :: FullPath(root, f)
  }

  /** The row inserted for a newly found file whose stat succeeded. */
  function NewRecord(root: string, f: Found, configId: int, id: int): (r: FileRecord)
    requires f.stat.Some?
    ensures r.id == id && r.directoryConfigId == configId
    ensures r.filename == f.name && r.path == DirPath(root, f.chain)
    ensures r.fullPath == Paths.Join(r.path, r.filename) == FullPath(root, f)
    ensures r.extension == Paths.Extension(r.filename)
    ensures r.sizeBytes == f.stat.value.size && r.createdAt == f.stat.value.ctime && r.modifiedAt == f.stat.value.mtime
  {
    FileRecord(
      id := id,
      filename := f.name,
      path := DirPath(root, f.chain),
      fullPath := FullPath(root, f),
      sizeBytes := f.stat.value.size,
      extension := Paths.Extension(f.name),
      createdAt := f.stat.value.ctime,
      modifiedAt := f.stat.value.mtime,
      directoryConfigId := configId)
  }

  /**
   * The rows `session.add` queues during the walk, in walk order, with the
   * ids the database gives them on insertion: `firstId`, `firstId + 1`, ...
   * One row per found file whose path is not among `existing` and whose
   * stat succeeded.
   */
  function Additions(root: string, found: seq<Found>, existing: set<string>, configId: int, firstId: int): (r: seq<FileRecord>)
    ensures |r| <= |found|
    ensures forall k :: 0 <= k < |r| ==> r[k].id == firstId + k && r[k].directoryConfigId == configId
  {
    if found == [] then []
    else
      var f := found[|found| - 1];
      var rest := Additions(root, found[..|found| - 1], existing, configId, firstId);
      if FullPath(root, f) !in existing && f.stat.Some? then rest + [NewRecord(root, f, configId, firstId + |rest|)]
      else rest
  }

  /** The full paths of some rows. */
  function PathsOf(rows: seq<FileRecord>): set<string>
  {
    set x | x in rows :: x.fullPath
  }

  /** The full paths that deserve a new row: found, stat succeeded, and not among the directory's existing paths. */
  function Insertable(root: string, found: seq<Found>, existing: set<string>): set<string>
  {
    set f | f in found && f.stat.Some? && FullPath(root, f) !in existing :: FullPath(root, f)
  }

  /** The ids of the rows of directory `configId` whose path is not among `seen`. */
  function StaleIds(files: map<int, FileRecord>, configId: int, seen: set<string>): set<int>
  {
    set id | id in files && files[id].directoryConfigId == configId && files[id].fullPath !in seen
  }

  /** The same, collected from a list of rows. */
  function StaleInRows(rows: seq<FileRecord>, configId: int, seen: set<string>): set<int>
  {
    set x | x in rows && x.directoryConfigId == configId && x.fullPath !in seen :: x.id
  }

  /** The changeset of one scan: ids to delete and rows to insert. */
  datatype Plan = Plan(stale: set<int>, adds: seq<FileRecord>)

  function Reconcile(files: map<int, FileRecord>, root: string, configId: int, found: seq<Found>, firstId: int): Plan
  {
    Plan(StaleIds(files, configId, FoundPaths(root, found)), Additions(root, found, ExistingPaths(files, configId), configId, firstId))
  }

  /** The queued rows keyed by the ids they receive. */
  function AsMap(adds: seq<FileRecord>, firstId: int): (m: map<int, FileRecord>)
    ensures forall id :: id in m <==> firstId <= id < firstId + |adds|
    ensures forall id :: id in m ==> m[id] == adds[id - firstId]
  {
    if adds == [] then map[]
    else AsMap(adds[..|adds| - 1], firstId)[firstId + |adds| - 1 := adds[|adds| - 1]]
  }

  /**
   * Whether the commit would break the unique constraint on `full_path`:
   * two queued rows share a path, or a queued row takes the path of a row
   * already in the table (SQLAlchemy's flush issues the inserts before the deletes).
   */
  predicate Conflicts(files: map<int, FileRecord>, adds: seq<FileRecord>)
  {
    || (exists k, l {:trigger SamePath(adds[k], adds[l])} :: 0 <= k < l < |adds| && SamePath(adds[k], adds[l]))
    || (exists id, k {:trigger SamePath(files[id], adds[k])} :: id in files && 0 <= k < |adds| && SamePath(files[id], adds[k]))
  }

  /** Two rows the unique constraint on `full_path` cannot both hold. */
  predicate SamePath(a: FileRecord, b: FileRecord)
  {
    a.fullPath == b.fullPath
  }

  /** The catalog after a committed scan. */
  function Apply(files: map<int, FileRecord>, plan: Plan, firstId: int): map<int, FileRecord>
  {
    (files - plan.stale) + AsMap(plan.adds, firstId)
  }

  /**
   * The walk loop of `scan_directory`: every reported file's path is
   * recorded as found, and a row is queued for each new path whose stat
   * succeeds.
   */
  method WalkAndQueue(root: string, found: seq<Found>, existingPaths: set<string>, configId: int, firstId: int)
    returns (foundPaths: set<string>, pending: seq<FileRecord>)
    ensures foundPaths == FoundPaths(root, found)
    ensures pending == Additions(root, found, existingPaths, configId, firstId)
  {
    foundPaths, pending := {}, [];
    var i := 0;
    while i < |found|
      invariant 0 <= i <= |found|
      invariant foundPaths == FoundPaths(root, found[..i])
      invariant pending == Additions(root, found[..i], existingPaths, configId, firstId)
    {
      var f := found[i];
      var fullPath := FullPath(root, f);
      QueueStep(root, found, i, existingPaths, configId, firstId, pending);
      FoundStep(root, found, i);
      foundPaths := foundPaths + {fullPath};
      // A `None` stat is an `os.stat` that raised: the path counts as found, but no row is queued.
      if fullPath !in existingPaths && f.stat.Some? {
        pending := pending + [NewRecord(root, f, configId, firstId + |pending|)];
      }
      i := i + 1;
    }
    assert found[..i] == found;
  }

  /** The delete loop of `scan_directory`: the ids of the directory's rows whose path was not found. */
  method StaleRows(rows: seq<FileRecord>, configId: int, foundPaths: set<string>) returns (stale: set<int>)
    ensures stale == StaleInRows(rows, configId, foundPaths)
  {
    stale := {};
    var j := 0;
    while j < |rows|
      invariant 0 <= j <= |rows|
      invariant stale == StaleInRows(rows[..j], configId, foundPaths)
    {
      var x := rows[j];
      assert rows[..j + 1] == rows[..j] + [x];
      if x.directoryConfigId == configId && x.fullPath !in foundPaths {
        stale := stale + {x.id};
      }
      j := j + 1;
    }
    assert rows[..j] == rows;
  }

  /**
   * `scan_directory(directory_path, session, config_id)`: the directory's
   * current state is `tree` and the content of its `.docignore` is `ignoreFile`.
   */
  method ScanDirectory(directoryPath: string, db: Store, configId: int, ignoreFile: IgnoreFile, tree: Option<seq<Entry>>)
    returns (outcome: ScanOutcome)
    requires db.Valid()
    modifies db
    ensures db.Valid()
    ensures db.dirs == old(db.dirs) && db.nextDirId == old(db.nextDirId)
    ensures ignoreFile.Unreadable? ==> outcome == IgnoreFileUnreadable
    ensures !ignoreFile.Unreadable? ==>
      var plan := Reconcile(old(db.files), directoryPath, configId, WalkRoot(tree, PatternsOf(ignoreFile)), old(db.nextFileId));
      outcome == (if Conflicts(old(db.files), plan.adds) then CommitRejected else Committed)
    ensures outcome == Committed ==>
      var plan := Reconcile(old(db.files), directoryPath, configId, WalkRoot(tree, PatternsOf(ignoreFile)), old(db.nextFileId));
      db.files == Apply(old(db.files), plan, old(db.nextFileId)) && db.nextFileId == old(db.nextFileId) + |plan.adds|
    ensures outcome != Committed ==> db.files == old(db.files) && db.nextFileId == old(db.nextFileId)
  {
    var loaded := LoadIgnorePatterns(ignoreFile);
    if loaded.Err? {
      return IgnoreFileUnreadable;
    }
    var found := WalkRoot(tree, loaded.value);
    var committed := SyncCatalog(db, directoryPath, configId, found);
    outcome := if committed then Committed else CommitRejected;
  }

  /**
   * The catalog half of `scan_directory` once the walk has reported `found`:
   * queue the new rows, delete the rows not found again, and commit, which
   * the unique constraint on `full_path` may refuse as a whole.
   */
  method SyncCatalog(db: Store, directoryPath: string, configId: int, found: seq<Found>) returns (committed: bool)
    requires db.Valid()
    modifies db
    ensures db.Valid()
    ensures db.dirs == old(db.dirs) && db.nextDirId == old(db.nextDirId)
    ensures var plan := Reconcile(old(db.files), directoryPath, configId, found, old(db.nextFileId));
      && committed == !Conflicts(old(db.files), plan.adds)
      && (committed ==> db.files == Apply(old(db.files), plan, old(db.nextFileId)) && db.nextFileId == old(db.nextFileId) + |plan.adds|)
    ensures !committed ==> db.files == old(db.files) && db.nextFileId == old(db.nextFileId)
  {
    var existingPaths := ExistingPaths(db.files, configId);
    var foundPaths, pending := WalkAndQueue(directoryPath, found, existingPaths, configId, db.nextFileId);
    var rows := db.Rows();
    var stale := StaleRows(rows, configId, foundPaths);
    StaleFromRows(db.files, rows, configId, foundPaths);

    // The commit: refused as a whole when an inserted path is already taken.
    if Conflicts(db.files, pending) {
      return false;
    }
    CommitKeepsCatalogValid(db.files, stale, pending, db.nextFileId);
    db.files := (db.files - stale) + AsMap(pending, db.nextFileId);
    db.nextFileId := db.nextFileId + |pending|;
    committed := true;
  }

  /** Where a row of the committed table comes from. */
  lemma CommittedRow(files: map<int, FileRecord>, stale: set<int>, adds: seq<FileRecord>, firstId: int, id: int)
    requires forall i :: i in files ==> i < firstId
    requires id in (files - stale) + AsMap(adds, firstId)
    ensures var m := (files - stale) + AsMap(adds, firstId);
      if firstId <= id then id - firstId < |adds| && m[id] == adds[id - firstId]
      else id in files && m[id] == files[id]
  {
  }

  /** A commit the unique constraint accepts leaves a well-formed table: every row under its own id, and no path twice. */
  lemma CommitKeepsCatalogValid(files: map<int, FileRecord>, stale: set<int>, adds: seq<FileRecord>, firstId: int)
    requires FilesValid(files, firstId)
    requires forall k :: 0 <= k < |adds| ==> adds[k].id == firstId + k
    requires !Conflicts(files, adds)
    ensures FilesValid((files - stale) + AsMap(adds, firstId), firstId + |adds|)
  {
    var m := (files - stale) + AsMap(adds, firstId);
    forall id | id in m ensures m[id].id == id && 1 <= id < firstId + |adds| {
      CommittedRow(files, stale, adds, firstId, id);
    }
    forall i, j | i in m && j in m && i < j
      ensures m[i].fullPath != m[j].fullPath
    {
      CommittedRow(files, stale, adds, firstId, i);
      CommittedRow(files, stale, adds, firstId, j);
      if firstId <= i {
        assert !SamePath(adds[i - firstId], adds[j - firstId]);
      } else if firstId <= j {
        assert !SamePath(files[i], adds[j - firstId]);
      }
    }
  }

  /**
   * What a conflict is: with a well-formed table and the queued rows under
   * fresh ids, the commit conflicts exactly when the table with the queued
   * rows added would hold some `full_path` twice.
   */
  lemma ConflictsMeaning(files: map<int, FileRecord>, adds: seq<FileRecord>, firstId: int)
    requires FilesValid(files, firstId)
    requires forall k :: 0 <= k < |adds| ==> adds[k].id == firstId + k
    ensures Conflicts(files, adds) <==> !UniqueFullPaths(files + AsMap(adds, firstId))
  {
    if Conflicts(files, adds) {
      ConflictBreaksUniqueness(files, adds, firstId);
    } else {
      CommitKeepsCatalogValid(files, {}, adds, firstId);
      assert files - {} == files;
    }
  }

  /** A conflict names two different ids of the combined table that hold the same path. */
  lemma ConflictBreaksUniqueness(files: map<int, FileRecord>, adds: seq<FileRecord>, firstId: int)
    requires forall id :: id in files ==> id < firstId
    requires Conflicts(files, adds)
    ensures !UniqueFullPaths(files + AsMap(adds, firstId))
  {
    var m := files + AsMap(adds, firstId);
    if exists k, l {:trigger SamePath(adds[k], adds[l])} :: 0 <= k < l < |adds| && SamePath(adds[k], adds[l]) {
      var k, l :| 0 <= k < l < |adds| && SamePath(adds[k], adds[l]);
      assert m[firstId + k] == adds[k] && m[firstId + l] == adds[l];
    } else {
      var id, k :| id in files && 0 <= k < |adds| && SamePath(files[id], adds[k]);
      assert m[id] == files[id] && m[firstId + k] == adds[k];
    }
  }

  /** The rows of directory `configId` whose path was not seen, collected from the table's rows. */
  lemma StaleFromRows(files: map<int, FileRecord>, rows: seq<FileRecord>, configId: int, seen: set<string>)
    requires forall x :: x in rows <==> x.id in files && files[x.id] == x
    requires KeyedById(files)
    ensures StaleInRows(rows, configId, seen) == StaleIds(files, configId, seen)
  {
    var fromRows := StaleInRows(rows, configId, seen);
    var fromTable := StaleIds(files, configId, seen);
    forall id | id in fromTable ensures id in fromRows {
      assert files[id].id == id && files[id] in rows;
    }
    forall id | id in fromRows ensures id in fromTable {
    }
  }

  /** One iteration of the walk loop on the queued rows. */
  lemma {:induction false} QueueStep(root: string, found: seq<Found>, i: int, existing: set<string>, configId: int, firstId: int, pending: seq<FileRecord>)
    requires 0 <= i < |found|
    requires pending == Additions(root, found[..i], existing, configId, firstId)
    ensures FullPath(root, found[i]) !in existing && found[i].stat.Some? ==>
      Additions(root, found[..i + 1], existing, configId, firstId) == pending + [NewRecord(root, found[i], configId, firstId + |pending|)]
    ensures !(FullPath(root, found[i]) !in existing && found[i].stat.Some?) ==>
      Additions(root, found[..i + 1], existing, configId, firstId) == pending
  {
    assert found[..i + 1] == found[..i] + [found[i]];
    AdditionsSnoc(root, found[..i], found[i], existing, configId, firstId);
  }

  /** `Additions` of a list with one more file at its end, unfolded once. */
  lemma {:induction false} AdditionsSnoc(root: string, init: seq<Found>, f: Found, existing: set<string>, configId: int, firstId: int)
    ensures Additions(root, init + [f], existing, configId, firstId)
         == if FullPath(root, f) !in existing && f.stat.Some?
            then Additions(root, init, existing, configId, firstId)
                 + [NewRecord(root, f, configId, firstId + |Additions(root, init, existing, configId, firstId)|)]
            else Additions(root, init, existing, configId, firstId)
  {
    var s := init + [f];
    assert s[..|s| - 1] == init && s[|s| - 1] == f;
  }

  /** One iteration of the walk loop on the found paths. */
  lemma FoundStep(root: string, found: seq<Found>, i: int)
    requires 0 <= i < |found|
    ensures FoundPaths(root, found[..i + 1]) == FoundPaths(root, found[..i]) + {FullPath(root, found[i])}
  {
    assert forall g :: g in found[..i + 1] <==> g in found[..i] || g == found[i];
  }

  /** The queued rows are exactly the insertable paths. */
  lemma {:induction false} AdditionsPaths(root: string, found: seq<Found>, existing: set<string>, configId: int, firstId: int)
    ensures PathsOf(Additions(root, found, existing, configId, firstId)) == Insertable(root, found, existing)
    decreases |found|
  {
    if found != [] {
      var init, f := found[..|found| - 1], found[|found| - 1];
      assert found == init + [f];
      AdditionsPaths(root, init, existing, configId, firstId);
      InsertableSnoc(root, init, f, existing);
      var rest := Additions(root, init, existing, configId, firstId);
      if FullPath(root, f) !in existing && f.stat.Some? {
        PathsOfSnoc(rest, NewRecord(root, f, configId, firstId + |rest|));
      }
    }
  }

  /** `row` is the row built, under `id`, from a found file that is new and whose stat succeeded. */
  predicate BuiltFrom(root: string, found: seq<Found>, existing: set<string>, configId: int, row: FileRecord, id: int)
  {
    exists f :: f in found && f.stat.Some? && FullPath(root, f) !in existing && row == NewRecord(root, f, configId, id)
  }

  /**
   * Each queued row is the `FileRecord` built from one found file that is new
   * and whose stat succeeded, under the id it receives on insertion.
   */
  lemma {:induction false} AdditionsRows(root: string, found: seq<Found>, existing: set<string>, configId: int, firstId: int)
    ensures forall k :: 0 <= k < |Additions(root, found, existing, configId, firstId)| ==>
      BuiltFrom(root, found, existing, configId, Additions(root, found, existing, configId, firstId)[k], firstId + k)
    decreases |found|
  {
    if found != [] {
      var init, f := found[..|found| - 1], found[|found| - 1];
      AdditionsRows(root, init, existing, configId, firstId);
      var rest := Additions(root, init, existing, configId, firstId);
      var r := Additions(root, found, existing, configId, firstId);
      forall k | 0 <= k < |r|
        ensures BuiltFrom(root, found, existing, configId, r[k], firstId + k)
      {
        if k < |rest| {
          assert r[k] == rest[k];
          assert forall g :: g in init ==> g in found;
        } else {
          assert f in found;
        }
      }
    }
  }

  lemma PathsOfSnoc(rows: seq<FileRecord>, x: FileRecord)
    ensures PathsOf(rows + [x]) == PathsOf(rows) + {x.fullPath}
  {
    assert forall y :: y in rows + [x] <==> y in rows || y == x;
  }

  lemma InsertableSnoc(root: string, found: seq<Found>, f: Found, existing: set<string>)
    ensures Insertable(root, found + [f], existing)
         == Insertable(root, found, existing) + (if FullPath(root, f) !in existing && f.stat.Some? then {FullPath(root, f)} else {})
  {
    assert forall g :: g in found + [f] <==> g in found || g == f;
  }

  /** The rows of the other directories are left exactly as they were, and every inserted row belongs to the scanned one. */
  lemma ScanKeepsOtherDirectories(files: map<int, FileRecord>, root: string, configId: int, found: seq<Found>, firstId: int)
    requires forall id :: id in files ==> id < firstId
    ensures var after := Apply(files, Reconcile(files, root, configId, found, firstId), firstId);
      && (forall id :: id in files && files[id].directoryConfigId != configId ==> id in after && after[id] == files[id])
      && (forall id :: id in after && id !in files ==> after[id].directoryConfigId == configId)
  {
  }

  /** A row of the scanned directory stays, unchanged, exactly when its path was found again; otherwise it is deleted. */
  lemma ScanKeepsFoundRows(files: map<int, FileRecord>, root: string, configId: int, found: seq<Found>, firstId: int)
    requires forall id :: id in files ==> id < firstId
    ensures var after := Apply(files, Reconcile(files, root, configId, found, firstId), firstId);
      forall id :: id in files && files[id].directoryConfigId == configId ==>
        (id in after <==> files[id].fullPath in FoundPaths(root, found))
        && (id in after ==> after[id] == files[id])
  {
  }

  /**
   * After a committed scan the directory's paths are the previously known
   * paths that were found again, plus every found path whose stat succeeded.
   */
  lemma ScanPaths(files: map<int, FileRecord>, root: string, configId: int, found: seq<Found>, firstId: int)
    requires KeyedById(files)
    requires forall id :: id in files ==> id < firstId
    ensures var after := Apply(files, Reconcile(files, root, configId, found, firstId), firstId);
      ExistingPaths(after, configId)
      == (ExistingPaths(files, configId) * FoundPaths(root, found)) + Insertable(root, found, ExistingPaths(files, configId))
  {
    var existing := ExistingPaths(files, configId);
    AdditionsPaths(root, found, existing, configId, firstId);
    ScanPathsKept(files, root, configId, found, firstId);
    ScanPathsGained(files, root, configId, found, firstId);
  }

  /** Every path of the directory after the commit was either kept or inserted. */
  lemma ScanPathsKept(files: map<int, FileRecord>, root: string, configId: int, found: seq<Found>, firstId: int)
    requires forall id :: id in files ==> id < firstId
    ensures var plan := Reconcile(files, root, configId, found, firstId);
      ExistingPaths(Apply(files, plan, firstId), configId)
      <= (ExistingPaths(files, configId) * FoundPaths(root, found)) + PathsOf(plan.adds)
  {
    var plan := Reconcile(files, root, configId, found, firstId);
    var after := Apply(files, plan, firstId);
    forall id | id in after && after[id].directoryConfigId == configId
      ensures after[id].fullPath in (ExistingPaths(files, configId) * FoundPaths(root, found)) + PathsOf(plan.adds)
    {
      CommittedRow(files, plan.stale, plan.adds, firstId, id);
      if firstId <= id {
        assert plan.adds[id - firstId] in plan.adds;
      }
    }
  }

  /** Every path kept or inserted is a path of the directory after the commit. */
  lemma ScanPathsGained(files: map<int, FileRecord>, root: string, configId: int, found: seq<Found>, firstId: int)
    requires forall id :: id in files ==> id < firstId
    ensures var plan := Reconcile(files, root, configId, found, firstId);
      (ExistingPaths(files, configId) * FoundPaths(root, found)) + PathsOf(plan.adds)
      <= ExistingPaths(Apply(files, plan, firstId), configId)
  {
    var plan := Reconcile(files, root, configId, found, firstId);
    var after := Apply(files, plan, firstId);
    var seen := FoundPaths(root, found);
    forall id | id in files && files[id].directoryConfigId == configId && files[id].fullPath in seen
      ensures files[id].fullPath in ExistingPaths(after, configId)
    {
      assert id in after && after[id] == files[id];
    }
    forall k | 0 <= k < |plan.adds|
      ensures plan.adds[k].fullPath in ExistingPaths(after, configId)
    {
      assert firstId + k in after && after[firstId + k] == plan.adds[k];
    }
  }

  /** Nothing is queued when every found file whose stat succeeds already has a row. */
  lemma {:induction false} AdditionsNone(root: string, found: seq<Found>, existing: set<string>, configId: int, firstId: int)
    requires forall f :: f in found && f.stat.Some? ==> FullPath(root, f) in existing
    ensures Additions(root, found, existing, configId, firstId) == []
    decreases |found|
  {
    if found != [] {
      var init := found[..|found| - 1];
      assert forall f :: f in init ==> f in found;
      AdditionsNone(root, init, existing, configId, firstId);
      assert found[|found| - 1] in found;
    }
  }

  /**
   * Rescanning an unchanged tree right after a committed scan finds nothing
   * to do: no row is stale and no row is queued.
   */
  lemma RescanChangesNothing(files: map<int, FileRecord>, root: string, configId: int, found: seq<Found>, firstId: int)
    requires KeyedById(files)
    requires forall id :: id in files ==> id < firstId
    ensures var plan := Reconcile(files, root, configId, found, firstId);
      var after := Apply(files, plan, firstId);
      var again := Reconcile(after, root, configId, found, firstId + |plan.adds|);
      again.stale == {} && again.adds == []
  {
    var plan := Reconcile(files, root, configId, found, firstId);
    var after := Apply(files, plan, firstId);
    var existing := ExistingPaths(files, configId);
    ScanPaths(files, root, configId, found, firstId);
    KnownAfterScan(root, found, existing, ExistingPaths(after, configId));
    NoStaleWhenAllFound(after, configId, FoundPaths(root, found));
    AdditionsNone(root, found, ExistingPaths(after, configId), configId, firstId + |plan.adds|);
  }

  /** The directory's paths after a scan were all found, and every found file whose stat succeeds is among them. */
  lemma KnownAfterScan(root: string, found: seq<Found>, existing: set<string>, known: set<string>)
    requires known == (existing * FoundPaths(root, found)) + Insertable(root, found, existing)
    ensures known <= FoundPaths(root, found)
    ensures forall f :: f in found && f.stat.Some? ==> FullPath(root, f) in known
  {
  }

  /** No row of the directory is stale when all its paths are among those seen. */
  lemma NoStaleWhenAllFound(files: map<int, FileRecord>, configId: int, seen: set<string>)
    requires ExistingPaths(files, configId) <= seen
    ensures StaleIds(files, configId, seen) == {}
  {
    forall id | id in files && files[id].directoryConfigId == configId
      ensures files[id].fullPath in seen
    {
      assert files[id].fullPath in ExistingPaths(files, configId);
    }
  }

  // ----- an ordinary scan commits -----

  /**
   * When the found files have pairwise distinct full paths, so have the
   * queued rows, and there is exactly one queued row per insertable path.
   */
  lemma {:induction false} AdditionsDistinct(root: string, found: seq<Found>, existing: set<string>, configId: int, firstId: int)
    requires DistinctPaths(root, found)
    ensures PathsDistinct(Additions(root, found, existing, configId, firstId))
    ensures |Additions(root, found, existing, configId, firstId)| == |Insertable(root, found, existing)|
    decreases |found|
  {
    if found != [] {
      var init, f := found[..|found| - 1], found[|found| - 1];
      LastPathIsNew(root, found, existing);
      AdditionsDistinct(root, init, existing, configId, firstId);
      var rest := Additions(root, init, existing, configId, firstId);
      if FullPath(root, f) !in existing && f.stat.Some? {
        AdditionsPaths(root, init, existing, configId, firstId);
        PathsDistinctSnoc(rest, NewRecord(root, f, configId, firstId + |rest|));
      }
      InsertableCount(root, found, existing);
    }
  }

  /** One more found file with a new path adds one insertable path exactly when it is new and its stat succeeds. */
  lemma InsertableCount(root: string, found: seq<Found>, existing: set<string>)
    requires found != []
    requires FullPath(root, found[|found| - 1]) !in Insertable(root, found[..|found| - 1], existing)
    ensures var f := found[|found| - 1];
      |Insertable(root, found, existing)|
        == |Insertable(root, found[..|found| - 1], existing)| + (if FullPath(root, f) !in existing && f.stat.Some? then 1 else 0)
  {
    var init, f := found[..|found| - 1], found[|found| - 1];
    assert found == init + [f];
    InsertableSnoc(root, init, f, existing);
  }

  /** No full path twice among some rows. */
  predicate PathsDistinct(r: seq<FileRecord>)
  {
    forall k, l :: 0 <= k < l < |r| ==> r[k].fullPath != r[l].fullPath
  }

  lemma PathsDistinctSnoc(rows: seq<FileRecord>, x: FileRecord)
    requires PathsDistinct(rows) && x.fullPath !in PathsOf(rows)
    ensures PathsDistinct(rows + [x])
  {
    var r := rows + [x];
    forall k, l | 0 <= k < l < |r| ensures r[k].fullPath != r[l].fullPath {
      assert r[k] == rows[k] && rows[k] in rows;
    }
  }

  /** With distinct found paths, the last found file's path is not among the earlier ones, and the earlier ones stay distinct. */
  lemma LastPathIsNew(root: string, found: seq<Found>, existing: set<string>)
    requires DistinctPaths(root, found) && found != []
    ensures DistinctPaths(root, found[..|found| - 1])
    ensures FullPath(root, found[|found| - 1]) !in Insertable(root, found[..|found| - 1], existing)
  {
    var init := found[..|found| - 1];
    forall g | g in init ensures FullPath(root, g) != FullPath(root, found[|found| - 1]) {
      var i :| 0 <= i < |init| && init[i] == g;
      assert found[i] == g;
    }
  }

  /**
   * A scan whose found files have distinct paths conflicts with nothing as
   * long as no row of another directory configuration holds one of those
   * paths: the queued paths are distinct, and none of them is held by a row
   * of the scanned directory, since only new paths are queued.
   */
  lemma NoConflictsWhenDistinct(files: map<int, FileRecord>, root: string, configId: int, found: seq<Found>, firstId: int)
    requires DistinctPaths(root, found)
    requires forall id :: id in files && files[id].directoryConfigId != configId ==> files[id].fullPath !in FoundPaths(root, found)
    ensures !Conflicts(files, Reconcile(files, root, configId, found, firstId).adds)
  {
    var existing := ExistingPaths(files, configId);
    var adds := Additions(root, found, existing, configId, firstId);
    AdditionsDistinct(root, found, existing, configId, firstId);
    AdditionsPaths(root, found, existing, configId, firstId);
    forall id, k | id in files && 0 <= k < |adds| ensures !SamePath(files[id], adds[k]) {
      assert adds[k].fullPath in PathsOf(adds);
      if files[id].directoryConfigId == configId {
        assert files[id].fullPath in existing;
      }
    }
  }

  /**
   * An ordinary scan commits: walking a well-formed tree below a non-empty
   * root, against a table where no other directory configuration holds a
   * path the walk reports, queues no conflicting row, so `ScanDirectory`
   * returns `Committed` and applies its plan.
   */
  lemma ScanCommits(files: map<int, FileRecord>, root: string, configId: int, entries: seq<Entry>, patterns: seq<string>, firstId: int)
    requires root != [] && WellFormed(entries)
    requires forall id :: id in files && files[id].directoryConfigId != configId ==>
      files[id].fullPath !in FoundPaths(root, WalkRoot(Some(entries), patterns))
    ensures !Conflicts(files, Reconcile(files, root, configId, WalkRoot(Some(entries), patterns), firstId).adds)
  {
    WalkPathsDistinct(root, entries, patterns);
    NoConflictsWhenDistinct(files, root, configId, WalkRoot(Some(entries), patterns), firstId);
  }

  /** On the first scan of a directory, that is with no row of it in the table, its rows afterwards are exactly the queued rows. */
  lemma FirstScanRows(files: map<int, FileRecord>, plan: Plan, configId: int, firstId: int)
    requires forall id :: id in files ==> files[id].directoryConfigId != configId
    ensures forall k :: 0 <= k < |plan.adds| ==> Apply(files, plan, firstId)[firstId + k] == plan.adds[k]
    ensures forall id :: id in Apply(files, plan, firstId) && Apply(files, plan, firstId)[id].directoryConfigId == configId ==>
      firstId <= id < firstId + |plan.adds| && Apply(files, plan, firstId)[id] == plan.adds[id - firstId]
  {
    var queued := AsMap(plan.adds, firstId);
    forall k | 0 <= k < |plan.adds| ensures Apply(files, plan, firstId)[firstId + k] == plan.adds[k] {
      assert firstId + k in queued;
    }
  }
}
