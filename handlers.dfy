/**
 * The catalog-changing route handlers: `add_directory`, `delete_directory`,
 * `delete_file` and `delete_files_bulk`. Each ends in a single `commit`,
 * modelled as one assignment of its whole effect to the catalog; the files
 * on disk are a `Disk` whose entries `os.remove` may or may not be able to
 * delete.
 */
module Handlers {
  import opened Wrappers
  import opened Catalog

  /** An `HTTPException`: the status code and the fixed part of its detail. */
  datatype HttpError = HttpError(status: int, detail: string)

  const InvalidDirectory := HttpError(400, "Invalid directory path")
  const DirectoryConfigured := HttpError(400, "Directory already configured")
  const DirectoryNotFound := HttpError(404, "Directory not found")
  const FileNotFound := HttpError(404, "File not found")
  const DiskFailure := HttpError(500, "Failed to delete file from disk")

  /** What is at a path that exists on disk: a file `os.remove` deletes, or one whose removal raises. */
  datatype DiskFile = Removable | Undeletable

  /** The files on disk, by full path; a path that is not a key does not exist. */
  class Disk {
    var entries: map<string, DiskFile>

    constructor (entries: map<string, DiskFile>)
      ensures this.entries == entries
    {
      this.entries := entries;
    }

    /** `if os.path.exists(path): os.remove(path)`; `false` when the removal raises. */
    method Remove(path: string) returns (ok: bool)
      modifies this
      ensures ok <==> !(path in old(entries) && old(entries)[path] == Undeletable)
      ensures ok ==> entries == old(entries) - {path}
      ensures !ok ==> entries == old(entries)
    {
      if path in entries {
        if entries[path] == Undeletable {
          return false;
        }
        entries := entries - {path};
      }
      return true;
    }
  }

  /** A configuration already has this path. */
  predicate Configured(dirs: map<int, DirectoryConfig>, path: string)
  {
    exists id :: id in dirs && dirs[id].path == path
  }

  /**
   * `add_directory(path)`: `isDir` is what `os.path.isdir(path)` answers and
   * `now` the creation time. The background scan it schedules is not part of
   * this operation.
   */
  method AddDirectory(db: Store, path: string, isDir: bool, now: int) returns (r: Result<DirectoryConfig, HttpError>)
    requires db.Valid()
    modifies db
    ensures db.Valid()
    ensures db.files == old(db.files) && db.nextFileId == old(db.nextFileId)
    ensures !isDir ==> r == Err(InvalidDirectory)
    ensures isDir && Configured(old(db.dirs), path) ==> r == Err(DirectoryConfigured)
    ensures isDir && !Configured(old(db.dirs), path) ==> r.Ok?
    ensures r.Err? ==> db.dirs == old(db.dirs) && db.nextDirId == old(db.nextDirId)
    ensures r.Ok? ==>
      && isDir && !Configured(old(db.dirs), path)
      && r.value == DirectoryConfig(old(db.nextDirId), path, now)
      && db.dirs == old(db.dirs)[r.value.id := r.value]
      && r.value.id !in old(db.dirs)
      && db.nextDirId == old(db.nextDirId) + 1
  {
    if !isDir {
      return Err(InvalidDirectory);
    }
    if Configured(db.dirs, path) {
      return Err(DirectoryConfigured);
    }
    var d := DirectoryConfig(db.nextDirId, path, now);
    NewDirectoryKeepsPathsUnique(db.dirs, db.nextDirId, d);
    db.dirs := db.dirs[d.id := d];
    db.nextDirId := db.nextDirId + 1;
    r := Ok(d);
  }

  /** Adding a configuration with a fresh id and an unconfigured path keeps the table well formed. */
  lemma NewDirectoryKeepsPathsUnique(dirs: map<int, DirectoryConfig>, nextId: int, d: DirectoryConfig)
    requires DirsValid(dirs, nextId)
    requires d.id == nextId && !Configured(dirs, d.path)
    ensures DirsValid(dirs[d.id := d], nextId + 1)
    ensures |dirs[d.id := d]| == |dirs| + 1
  {
    forall i | i in dirs ensures dirs[i].path != d.path {
    }
  }

  /** The ids of the rows of directory `dirId`. */
  function RowsOfDirectory(files: map<int, FileRecord>, dirId: int): set<int>
  {
    set id | id in files && files[id].directoryConfigId == dirId
  }

  /**
   * `delete_directory(dir_id)`: delete every row of the directory, then the
   * directory itself.
   */
  method DeleteDirectory(db: Store, dirId: int) returns (r: Result<(), HttpError>)
    requires db.Valid()
    modifies db
    ensures db.Valid()
    ensures db.nextFileId == old(db.nextFileId) && db.nextDirId == old(db.nextDirId)
    ensures dirId !in old(db.dirs) ==> r == Err(DirectoryNotFound) && db.files == old(db.files) && db.dirs == old(db.dirs)
    ensures dirId in old(db.dirs) ==>
      && r == Ok(())
      && db.files == old(db.files) - RowsOfDirectory(old(db.files), dirId)
      && db.dirs == old(db.dirs) - {dirId}
  {
    if dirId !in db.dirs {
      return Err(DirectoryNotFound);
    }
    var rows := db.Rows();
    var doomed := RowIdsOfDirectory(rows, dirId);
    assert doomed == RowsOfDirectory(db.files, dirId) by {
      forall id | id in RowsOfDirectory(db.files, dirId) ensures id in doomed {
        assert db.files[id] in rows;
      }
    }
    db.files := db.files - doomed;
    db.dirs := db.dirs - {dirId};
    r := Ok(());
  }

  /** The loop of `delete_directory` over the rows of the directory: their ids. */
  method RowIdsOfDirectory(rows: seq<FileRecord>, dirId: int) returns (doomed: set<int>)
    ensures doomed == set x | x in rows && x.directoryConfigId == dirId :: x.id
  {
    doomed := {};
    var k := 0;
    while k < |rows|
      invariant 0 <= k <= |rows|
      invariant doomed == set x | x in rows[..k] && x.directoryConfigId == dirId :: x.id
    {
      assert rows[..k + 1] == rows[..k] + [rows[k]];
      if rows[k].directoryConfigId == dirId {
        doomed := doomed + {rows[k].id};
      }
      k := k + 1;
    }
    assert rows[..k] == rows;
  }

  /**
   * After deleting directory `dirId` the remaining rows are exactly the rows
   * of the other directories, each unchanged.
   */
  lemma DeleteDirectoryKeepsOthers(files: map<int, FileRecord>, dirId: int)
    ensures var after := files - RowsOfDirectory(files, dirId);
      && (forall id :: id in after <==> id in files && files[id].directoryConfigId != dirId)
      && (forall id :: id in after ==> after[id] == files[id])
      && (forall id :: id in after ==> after[id].directoryConfigId != dirId)
  {
  }

  /**
   * `delete_file(file_id)`: remove the file from disk if it exists, then the
   * row; a removal that raises leaves both in place.
   */
  method DeleteFile(db: Store, disk: Disk, fileId: int) returns (r: Result<(), HttpError>)
    requires db.Valid()
    modifies db, disk
    ensures db.Valid()
    ensures db.dirs == old(db.dirs) && db.nextFileId == old(db.nextFileId) && db.nextDirId == old(db.nextDirId)
    ensures fileId !in old(db.files) ==> r == Err(FileNotFound)
    ensures fileId in old(db.files) && Stuck(old(disk.entries), old(db.files)[fileId].fullPath) ==> r == Err(DiskFailure)
    ensures fileId in old(db.files) && !Stuck(old(disk.entries), old(db.files)[fileId].fullPath) ==> r.Ok?
    ensures r.Err? ==> db.files == old(db.files) && disk.entries == old(disk.entries)
    ensures r.Ok? ==>
      && fileId in old(db.files)
      && db.files == old(db.files) - {fileId}
      && disk.entries == old(disk.entries) - {old(db.files)[fileId].fullPath}
  {
    if fileId !in db.files {
      return Err(FileNotFound);
    }
    var record := db.files[fileId];
    var removed := disk.Remove(record.fullPath);
    if !removed {
      return Err(DiskFailure);
    }
    db.files := db.files - {fileId};
    r := Ok(());
  }

  /** The file at `path` exists and cannot be removed. */
  predicate Stuck(entries: map<string, DiskFile>, path: string)
  {
    path in entries && entries[path] == Undeletable
  }

  /** The requested rows the bulk delete removes: those whose file is absent or removable. */
  function Deletable(files: map<int, FileRecord>, ids: set<int>, entries: map<string, DiskFile>): set<int>
  {
    set id | id in files && id in ids && !Stuck(entries, files[id].fullPath)
  }

  /** The paths of the rows with the given ids. */
  ghost function PathsOfIds(files: map<int, FileRecord>, ids: set<int>): set<string>
  {
    set id | id in ids && id in files :: files[id].fullPath
  }

  /** The rows `select(FileRecord).where(FileRecord.id.in_(ids))` returns, in table order. */
  function Requested(rows: seq<FileRecord>, ids: set<int>): (r: seq<FileRecord>)
    ensures forall x :: x in r <==> x in rows && x.id in ids
  {
    if rows == [] then []
    else
      var last := rows[|rows| - 1];
      Requested(rows[..|rows| - 1], ids) + (if last.id in ids then [last] else [])
  }

  lemma {:induction false} RequestedAscending(rows: seq<FileRecord>, ids: set<int>)
    requires Ascending(rows)
    ensures Ascending(Requested(rows, ids))
    decreases |rows|
  {
    if rows != [] {
      var init, last := rows[..|rows| - 1], rows[|rows| - 1];
      assert Ascending(init) by {
        forall k, l | 0 <= k < l < |init| ensures init[k].id < init[l].id {
          assert init[k] == rows[k] && init[l] == rows[l];
        }
      }
      RequestedAscending(init, ids);
      var f := Requested(init, ids);
      forall k | 0 <= k < |f| ensures f[k].id < last.id {
        assert f[k] in init;
        var j :| 0 <= j < |init| && init[j] == f[k];
        assert rows[j] == f[k];
      }
    }
  }

  /**
   * `delete_files_bulk(file_ids)`: for each requested row that exists, remove
   * its file from disk if present and delete the row, counting the rows
   * deleted; a row whose removal raises stays and is not counted.
   */
  method DeleteFilesBulk(db: Store, disk: Disk, fileIds: seq<int>) returns (deletedCount: int)
    requires db.Valid()
    modifies db, disk
    ensures db.Valid()
    ensures db.dirs == old(db.dirs) && db.nextFileId == old(db.nextFileId) && db.nextDirId == old(db.nextDirId)
    ensures db.files == old(db.files) - Deletable(old(db.files), set i | i in fileIds, old(disk.entries))
    ensures deletedCount == |Deletable(old(db.files), set i | i in fileIds, old(disk.entries))|
    ensures |db.files| == |old(db.files)| - deletedCount
    ensures disk.entries == old(disk.entries) - PathsOfIds(old(db.files), Deletable(old(db.files), set i | i in fileIds, old(disk.entries)))
  {
    var ids := set i | i in fileIds;
    var files := db.files;
    var rows := RequestedRows(files, db.nextFileId, ids);
    ghost var e0 := disk.entries;
    var gone;
    gone, deletedCount := RemoveRequested(disk, files, rows);
    BulkOutcome(files, db.nextFileId, rows, ids, e0, gone);
    DropRows(db, gone);
  }

  /** The commit of `delete_files_bulk`: the deleted rows leave the table, which shrinks by their number. */
  method DropRows(db: Store, gone: set<int>)
    requires db.Valid() && gone <= db.files.Keys
    modifies db
    ensures db.Valid()
    ensures db.dirs == old(db.dirs) && db.nextFileId == old(db.nextFileId) && db.nextDirId == old(db.nextDirId)
    ensures db.files == old(db.files) - gone
    ensures |db.files| == |old(db.files)| - |gone|
  {
    RemoveRowsCount(db.files, gone);
    db.files := db.files - gone;
  }

  /** The rows of a well-formed table whose ids are requested, in the table's order: they are rows of the table, and every requested id the table has is among them. */
  function RequestedRows(files: map<int, FileRecord>, nextId: int, ids: set<int>): (r: seq<FileRecord>)
    requires FilesValid(files, nextId)
    ensures Ascending(r)
    ensures forall x :: x in r ==> x.id in files && files[x.id] == x
    ensures IdsOf(r) * files.Keys == ids * files.Keys
  {
    var all := RowsBetween(files, 1, nextId);
    RequestedOfRows(all, files, ids);
    Requested(all, ids)
  }

  /** After the loop: the removed rows are the deletable requested ones, and the rest of the table is still well formed. */
  lemma BulkOutcome(files: map<int, FileRecord>, nextId: int, rows: seq<FileRecord>, ids: set<int>,
                    e0: map<string, DiskFile>, gone: set<int>)
    requires FilesValid(files, nextId)
    requires IdsOf(rows) * files.Keys == ids * files.Keys
    requires gone == Deletable(files, IdsOf(rows), e0)
    ensures gone == Deletable(files, ids, e0)
    ensures gone <= files.Keys
    ensures FilesValid(files - gone, nextId)
  {
    DeletableOfKnown(files, IdsOf(rows), ids, e0);
  }

  /** The requested rows, taken from the whole table, are ascending rows of the table and hold every requested id it has. */
  lemma RequestedOfRows(all: seq<FileRecord>, files: map<int, FileRecord>, ids: set<int>)
    requires Ascending(all) && KeyedById(files)
    requires forall x :: x in all <==> x.id in files && files[x.id] == x
    ensures Ascending(Requested(all, ids))
    ensures forall x :: x in Requested(all, ids) ==> x.id in files && files[x.id] == x
    ensures IdsOf(Requested(all, ids)) * files.Keys == ids * files.Keys
  {
    RequestedAscending(all, ids);
    var rows := Requested(all, ids);
    forall id | id in ids * files.Keys ensures id in IdsOf(rows) {
      assert files[id] in all;
      assert files[id] in rows;
    }
  }

  /**
   * The loop of `delete_files_bulk`: remove each row's file, and on success
   * mark the row deleted and count it.
   */
  method RemoveRequested(disk: Disk, files: map<int, FileRecord>, rows: seq<FileRecord>) returns (gone: set<int>, deletedCount: int)
    requires UniqueFullPaths(files) && Ascending(rows)
    requires forall x :: x in rows ==> x.id in files && files[x.id] == x
    modifies disk
    ensures gone == Deletable(files, IdsOf(rows), old(disk.entries))
    ensures deletedCount == |gone|
    ensures disk.entries == old(disk.entries) - PathsOfIds(files, gone)
  {
    ghost var e0 := disk.entries;
    gone := {};
    deletedCount := 0;
    var k := 0;
    while k < |rows|
      invariant 0 <= k <= |rows|
      invariant gone == Deletable(files, IdsOf(rows[..k]), e0)
      invariant forall id :: id in gone ==> k < |rows| ==> id < rows[k].id
      invariant deletedCount == |gone|
      invariant disk.entries == e0 - PathsOfIds(files, gone)
    {
      var x := rows[k];
      assert x in rows;
      NextRowStep(files, rows, k, gone, e0, disk.entries);
      var ok := disk.Remove(x.fullPath);
      if ok {
        PathsOfIdsAdd(files, gone, x);
        RemoveOneMore(e0, PathsOfIds(files, gone), x.fullPath, disk.entries);
        gone := gone + {x.id};
        deletedCount := deletedCount + 1;
      }
      k := k + 1;
    }
    assert rows[..k] == rows;
  }

  /** What one turn of the bulk loop relies on: the row is not yet deleted, its file is as it was, and the deletable set grows by it exactly when that file is not stuck. */
  lemma NextRowStep(files: map<int, FileRecord>, rows: seq<FileRecord>, k: int, gone: set<int>,
                    e0: map<string, DiskFile>, cur: map<string, DiskFile>)
    requires UniqueFullPaths(files) && Ascending(rows)
    requires 0 <= k < |rows| && rows[k].id in files && files[rows[k].id] == rows[k]
    requires forall id :: id in gone ==> id < rows[k].id
    requires cur == e0 - PathsOfIds(files, gone)
    ensures rows[k].id !in gone
    ensures |gone + {rows[k].id}| == |gone| + 1
    ensures Stuck(cur, rows[k].fullPath) <==> Stuck(e0, rows[k].fullPath)
    ensures Deletable(files, IdsOf(rows[..k + 1]), e0)
         == Deletable(files, IdsOf(rows[..k]), e0) + (if Stuck(e0, rows[k].fullPath) then {} else {rows[k].id})
  {
    PathNotGone(files, gone, rows[k]);
    BulkStep(files, rows, k, e0);
  }

  /** A row not yet deleted has a path that no deleted row had. */
  lemma PathNotGone(files: map<int, FileRecord>, gone: set<int>, x: FileRecord)
    requires UniqueFullPaths(files) && x.id in files && files[x.id] == x && x.id !in gone
    ensures x.fullPath !in PathsOfIds(files, gone)
  {
  }

  /** Removing one more path from what is left of a map. */
  lemma RemoveOneMore(e0: map<string, DiskFile>, paths: set<string>, path: string, next: map<string, DiskFile>)
    requires next == (e0 - paths) - {path}
    ensures next == e0 - (paths + {path})
  {
  }

  lemma PathsOfIdsAdd(files: map<int, FileRecord>, gone: set<int>, x: FileRecord)
    requires x.id in files && files[x.id] == x
    ensures PathsOfIds(files, gone + {x.id}) == PathsOfIds(files, gone) + {x.fullPath}
  {
  }

  /** One step of the bulk loop on the set of deletable rows. */
  lemma BulkStep(files: map<int, FileRecord>, rows: seq<FileRecord>, k: int, entries: map<string, DiskFile>)
    requires 0 <= k < |rows| && rows[k].id in files && files[rows[k].id] == rows[k]
    ensures Deletable(files, IdsOf(rows[..k + 1]), entries)
         == Deletable(files, IdsOf(rows[..k]), entries) + (if Stuck(entries, rows[k].fullPath) then {} else {rows[k].id})
  {
    assert forall y :: y in rows[..k + 1] <==> y in rows[..k] || y == rows[k];
    assert IdsOf(rows[..k + 1]) == IdsOf(rows[..k]) + {rows[k].id};
  }

  /** Only the requested ids that are rows of the table matter. */
  lemma DeletableOfKnown(files: map<int, FileRecord>, a: set<int>, b: set<int>, entries: map<string, DiskFile>)
    requires a * files.Keys == b * files.Keys
    ensures Deletable(files, a, entries) == Deletable(files, b, entries)
  {
    forall id ensures id in Deletable(files, a, entries) <==> id in Deletable(files, b, entries) {
      assert id in a * files.Keys <==> id in b * files.Keys;
    }
  }

  /** Deleting rows that exist shrinks the table by their number. */
  lemma RemoveRowsCount(files: map<int, FileRecord>, gone: set<int>)
    requires gone <= files.Keys
    ensures |files - gone| == |files| - |gone|
  {
    var a := files.Keys;
    assert (files - gone).Keys == a - gone;
    assert a + gone == a && gone - a == {} && a * gone == gone;
  }
}
