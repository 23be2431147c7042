/**
 * The catalog the handlers and the scanner read and write: the two tables
 * `FileRecord` and `DirectoryConfig`, keyed by their integer ids, with the
 * uniqueness of `FileRecord.full_path` and `DirectoryConfig.path` that the
 * schema declares. A handler's single final `commit` is modelled as one
 * assignment of its whole effect to these fields.
 */
module Catalog {

  /** One row of the `FileRecord` table; timestamps are opaque integers. */
  datatype FileRecord = FileRecord(
    id: int,
    filename: string,
    path: string,
    fullPath: string,
    sizeBytes: int,
    extension: string,
    createdAt: int,
    modifiedAt: int,
    directoryConfigId: int)

  /** One row of the `DirectoryConfig` table. */
  datatype DirectoryConfig = DirectoryConfig(id: int, path: string, createdAt: int)

  /** The unique constraint on `FileRecord.full_path`. */
  ghost predicate UniqueFullPaths(files: map<int, FileRecord>)
  {
    forall i, j :: i in files && j in files && files[i].fullPath == files[j].fullPath ==> i == j
  }

  /** The unique constraint on `DirectoryConfig.path`. */
  ghost predicate UniqueDirPaths(dirs: map<int, DirectoryConfig>)
  {
    forall i, j :: i in dirs && j in dirs && dirs[i].path == dirs[j].path ==> i == j
  }

  /** Every row sits under its own id. */
  predicate KeyedById(files: map<int, FileRecord>)
  {
    forall id :: id in files ==> files[id].id == id
  }

  /** The rows with ids in `[lo, hi)`, in ascending id order (the table's storage order). */
  function RowsBetween(files: map<int, FileRecord>, lo: int, hi: int): (r: seq<FileRecord>)
    requires KeyedById(files)
    ensures forall k :: 0 <= k < |r| ==> r[k].id in files && files[r[k].id] == r[k] && lo <= r[k].id < hi
    ensures forall k, l :: 0 <= k < l < |r| ==> r[k].id < r[l].id
    ensures forall id :: id in files && lo <= id < hi ==> files[id] in r
    decreases hi - lo
  {
    if lo >= hi then []
    else (if lo in files then [files[lo]] else []) + RowsBetween(files, lo + 1, hi)
  }

  /** Ids strictly ascending along a sequence of rows. */
  predicate Ascending(s: seq<FileRecord>)
  {
    forall k, l :: 0 <= k < l < |s| ==> s[k].id < s[l].id
  }

  /** The ids of some rows. */
  function IdsOf(s: seq<FileRecord>): set<int>
  {
    set x | x in s :: x.id
  }

  /** The `FileRecord` table is well formed: ids below the next one to hand out, each row under its id, no path twice. */
  ghost predicate FilesValid(files: map<int, FileRecord>, nextId: int)
  {
    && 1 <= nextId
    && KeyedById(files)
    && (forall id :: id in files ==> 1 <= id < nextId)
    && UniqueFullPaths(files)
  }

  /** The `DirectoryConfig` table is well formed in the same way. */
  ghost predicate DirsValid(dirs: map<int, DirectoryConfig>, nextId: int)
  {
    && 1 <= nextId
    && (forall id :: id in dirs ==> dirs[id].id == id && 1 <= id < nextId)
    && UniqueDirPaths(dirs)
  }

  class Store {
    var files: map<int, FileRecord>
    var dirs: map<int, DirectoryConfig>
    /** The next id the database hands out to an inserted row of each table. */
    var nextFileId: int
    var nextDirId: int

    ghost predicate Valid()
      reads this
    {
      FilesValid(files, nextFileId) && DirsValid(dirs, nextDirId)
    }

    /** An empty database. */
    constructor ()
      ensures Valid()
      ensures files == map[] && dirs == map[]
    {
      files, dirs := map[], map[];
      nextFileId, nextDirId := 1, 1;
    }

    /** The `FileRecord` table as an unsorted query returns it: every row once, by ascending id. */
    function Rows(): (r: seq<FileRecord>)
      reads this
      requires Valid()
      ensures forall x :: x in r <==> x.id in files && files[x.id] == x
      ensures Ascending(r)
    {
      RowsBetween(files, 1, nextFileId)
    }
  }
}
