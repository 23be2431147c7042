/**
 * `get_files`: the file listing. The filters (`search` on the file name,
 * exact `extension`) select rows of the `FileRecord` table; `total` counts
 * every selected row; the selected rows are optionally ordered by one column
 * and then cut to the page `[skip, skip + limit)` the way SQLite's
 * `LIMIT ... OFFSET ...` does.
 */
module Listing {
  import opened Wrappers
  import opened Catalog
  import Paths

  /** The query parameters of `GET /files/`; they default to `skip = 0`, `limit = 150` and `order = "asc"`. */
  datatype Query = Query(
    skip: int,
    limit: int,
    search: Option<string>,
    extension: Option<string>,
    sortBy: Option<string>,
    order: string)

  /** The response body: one page of rows and the number of rows selected in all. */
  datatype FilesResponse = FilesResponse(items: seq<FileRecord>, total: int)

  // ----- filters -----

  /** `sub` occurs in `s` starting at position `j`. */
  predicate OccursAt(sub: string, s: string, j: int)
  {
    0 <= j && j + |sub| <= |s| && s[j..j + |sub|] == sub
  }

  /** Does `sub` occur in `s` at position `i` or later? */
  function OccursFrom(sub: string, s: string, i: nat): (r: bool)
    ensures r <==> exists j :: i <= j && OccursAt(sub, s, j)
    decreases |s| - i
  {
    if i + |sub| > |s| then false
    else OccursAt(sub, s, i) || OccursFrom(sub, s, i + 1)
  }

  /** Is `sub` a substring of `s`? */
  predicate Occurs(sub: string, s: string)
  {
    OccursFrom(sub, s, 0)
  }

  /**
   * `FileRecord.filename.contains(search)`, a SQL `LIKE '%search%'`, which
   * SQLite compares without regard to ASCII case.
   */
  predicate SearchMatches(search: string, filename: string)
  {
    Occurs(Paths.Lower(search), Paths.Lower(filename))
  }

  /** Lowercasing twice is lowercasing once. */
  lemma LowerTwice(s: string)
    ensures Paths.Lower(Paths.Lower(s)) == Paths.Lower(s)
  {
  }

  /** The search ignores ASCII case on both sides. */
  lemma SearchIgnoresCase(search: string, filename: string)
    ensures SearchMatches(search, filename) <==> SearchMatches(Paths.Lower(search), filename)
    ensures SearchMatches(search, filename) <==> SearchMatches(search, Paths.Lower(filename))
  {
    LowerTwice(search);
    LowerTwice(filename);
  }

  /** A worked case: `Report` finds `annual_report.PDF`. */
  lemma SearchExample()
    ensures SearchMatches("Report", "annual_report.PDF")
  {
    var needle, hay := Paths.Lower("Report"), Paths.Lower("annual_report.PDF");
    assert needle == "report";
    assert hay[7..13] == "report";
    assert OccursAt(needle, hay, 7);
  }

  /** The conditions of the query: an absent or empty `search` or `extension` imposes nothing. */
  predicate Selects(q: Query, x: FileRecord)
  {
    && (q.search.None? || q.search.value == [] || SearchMatches(q.search.value, x.filename))
    && (q.extension.None? || q.extension.value == [] || x.extension == q.extension.value)
  }

  /** The rows the conditions select, in table order. */
  function Filtered(rows: seq<FileRecord>, q: Query): (r: seq<FileRecord>)
    ensures forall x :: x in r <==> x in rows && Selects(q, x)
    ensures |r| <= |rows|
  {
    if rows == [] then []
    else
      var last := rows[|rows| - 1];
      Filtered(rows[..|rows| - 1], q) + (if Selects(q, last) then [last] else [])
  }

  // ----- ordering -----

  /** The columns of `FileRecord`: the names `getattr(FileRecord, sort_by)` resolves to a column. */
  datatype Column =
    | Id | Filename | Path | FullPath | SizeBytes | Extension | CreatedAt | ModifiedAt | DirectoryConfigId

  function ColumnName(c: Column): string
  {
    match c
    case Id => "id"
    case Filename => "filename"
    case Path => "path"
    case FullPath => "full_path"
    case SizeBytes => "size_bytes"
    case Extension => "extension"
    case CreatedAt => "created_at"
    case ModifiedAt => "modified_at"
    case DirectoryConfigId => "directory_config_id"
  }

  /** The column a `sort_by` value names, if any. */
  function ColumnNamed(name: string): (r: Option<Column>)
  {
    if name == "id" then Some(Id)
    else if name == "filename" then Some(Filename)
    else if name == "path" then Some(Path)
    else if name == "full_path" then Some(FullPath)
    else if name == "size_bytes" then Some(SizeBytes)
    else if name == "extension" then Some(Extension)
    else if name == "created_at" then Some(CreatedAt)
    else if name == "modified_at" then Some(ModifiedAt)
    else if name == "directory_config_id" then Some(DirectoryConfigId)
    else None
  }

  /** A name resolves to a column exactly when it is that column's name. */
  lemma ColumnNamedMeaning(name: string, c: Column)
    ensures ColumnNamed(name) == Some(c) <==> name == ColumnName(c)
  {
  }

  /** A column value as SQLite compares it. */
  datatype Key = IntKey(i: int) | StrKey(s: string)

  function KeyOf(c: Column, x: FileRecord): Key
  {
    match c
    case Id => IntKey(x.id)
    case Filename => StrKey(x.filename)
    case Path => StrKey(x.path)
    case FullPath => StrKey(x.fullPath)
    case SizeBytes => IntKey(x.sizeBytes)
    case Extension => StrKey(x.extension)
    case CreatedAt => IntKey(x.createdAt)
    case ModifiedAt => IntKey(x.modifiedAt)
    case DirectoryConfigId => IntKey(x.directoryConfigId)
  }

  /** SQLite's `BINARY` collation: character by character, a proper prefix first. */
  predicate StrLe(a: string, b: string)
    decreases |a|
  {
    a == [] || (b != [] && (a[0] < b[0] || (a[0] == b[0] && StrLe(a[1..], b[1..]))))
  }

  /** Integers sort before text; within each, the natural order. */
  predicate KeyLe(a: Key, b: Key)
  {
    match (a, b)
    case (IntKey(i), IntKey(j)) => i <= j
    case (IntKey(_), StrKey(_)) => true
    case (StrKey(_), IntKey(_)) => false
    case (StrKey(s), StrKey(t)) => StrLe(s, t)
  }

  lemma {:induction false} StrLeTotal(a: string, b: string)
    ensures StrLe(a, b) || StrLe(b, a)
    decreases |a|
  {
    if a != [] && b != [] && a[0] == b[0] {
      StrLeTotal(a[1..], b[1..]);
    }
  }

  lemma {:induction false} StrLeTransitive(a: string, b: string, c: string)
    requires StrLe(a, b) && StrLe(b, c)
    ensures StrLe(a, c)
    decreases |a|
  {
    if a != [] && a[0] == b[0] && b[0] == c[0] {
      StrLeTransitive(a[1..], b[1..], c[1..]);
    }
  }

  /** `x` may come before `y` in `ORDER BY c` (`ASC`, or `DESC` when `desc`). */
  predicate Precedes(c: Column, desc: bool, x: FileRecord, y: FileRecord)
  {
    if desc then KeyLe(KeyOf(c, y), KeyOf(c, x)) else KeyLe(KeyOf(c, x), KeyOf(c, y))
  }

  lemma PrecedesTotal(c: Column, desc: bool, x: FileRecord, y: FileRecord)
    ensures Precedes(c, desc, x, y) || Precedes(c, desc, y, x)
  {
    match (KeyOf(c, x), KeyOf(c, y))
    case (StrKey(s), StrKey(t)) => StrLeTotal(s, t);
    case _ =>
  }

  lemma PrecedesTransitive(c: Column, desc: bool, x: FileRecord, y: FileRecord, z: FileRecord)
    requires Precedes(c, desc, x, y) && Precedes(c, desc, y, z)
    ensures Precedes(c, desc, x, z)
  {
    match (KeyOf(c, x), KeyOf(c, y), KeyOf(c, z))
    case (StrKey(s), StrKey(t), StrKey(u)) =>
      if desc { StrLeTransitive(u, t, s); } else { StrLeTransitive(s, t, u); }
    case _ =>
  }

  /** The order of `ORDER BY c ASC` (or `DESC`), as a comparison. */
  function OrderBy(c: Column, desc: bool): (FileRecord, FileRecord) -> bool
  {
    (x: FileRecord, y: FileRecord) => Precedes(c, desc, x, y)
  }

  /** A comparison that orders any two rows, transitively. */
  ghost predicate TotalPreorder(le: (FileRecord, FileRecord) -> bool)
  {
    && (forall x, y :: le(x, y) || le(y, x))
    && (forall x, y, z :: le(x, y) && le(y, z) ==> le(x, z))
  }

  lemma OrderByIsTotalPreorder(c: Column, desc: bool)
    ensures TotalPreorder(OrderBy(c, desc))
  {
    forall x, y ensures Precedes(c, desc, x, y) || Precedes(c, desc, y, x) {
      PrecedesTotal(c, desc, x, y);
    }
    forall x, y, z | Precedes(c, desc, x, y) && Precedes(c, desc, y, z) ensures Precedes(c, desc, x, z) {
      PrecedesTransitive(c, desc, x, y, z);
    }
  }

  predicate Ordered(le: (FileRecord, FileRecord) -> bool, s: seq<FileRecord>)
  {
    forall i, j :: 0 <= i < j < |s| ==> le(s[i], s[j])
  }

  /** Place `x` after every row of `s` that may precede it. */
  function Insert(le: (FileRecord, FileRecord) -> bool, x: FileRecord, s: seq<FileRecord>): (r: seq<FileRecord>)
    ensures multiset(r) == multiset(s) + multiset{x}
    ensures forall y :: y in r <==> y == x || y in s
  {
    if s == [] then [x]
    else if !le(s[0], x) then [x] + s
    else
      assert s == [s[0]] + s[1..];
      [s[0]] + Insert(le, x, s[1..])
  }

  /** The rows in `ORDER BY` order; rows with equal keys keep their table order. */
  function Sort(le: (FileRecord, FileRecord) -> bool, s: seq<FileRecord>): seq<FileRecord>
  {
    if s == [] then []
    else Insert(le, s[|s| - 1], Sort(le, s[..|s| - 1]))
  }

  lemma {:induction false} InsertOrdered(le: (FileRecord, FileRecord) -> bool, x: FileRecord, s: seq<FileRecord>)
    requires TotalPreorder(le) && Ordered(le, s)
    ensures Ordered(le, Insert(le, x, s))
    decreases |s|
  {
    if s == [] {
    } else if !le(s[0], x) {
      InsertFront(le, x, s);
    } else {
      InsertOrdered(le, x, s[1..]);
      InsertBehind(le, x, s);
    }
  }

  /** A row that does not follow the first of an ordered sequence can go in front. */
  lemma InsertFront(le: (FileRecord, FileRecord) -> bool, x: FileRecord, s: seq<FileRecord>)
    requires TotalPreorder(le) && s != [] && Ordered(le, s) && !le(s[0], x)
    ensures Ordered(le, [x] + s)
  {
    var r := [x] + s;
    assert le(x, s[0]);
    forall j | 0 < j < |r| ensures le(x, r[j]) {
      assert r[j] == s[j - 1];
    }
  }

  /** The first row stays first when `x` is inserted behind it. */
  lemma InsertBehind(le: (FileRecord, FileRecord) -> bool, x: FileRecord, s: seq<FileRecord>)
    requires s != [] && Ordered(le, s) && le(s[0], x)
    requires Ordered(le, Insert(le, x, s[1..]))
    ensures Ordered(le, [s[0]] + Insert(le, x, s[1..]))
  {
    HeadPrecedesRest(le, x, s);
    OrderedCons(le, s[0], Insert(le, x, s[1..]));
  }

  /** Putting in front a row that may precede every row keeps a sequence ordered. */
  lemma OrderedCons(le: (FileRecord, FileRecord) -> bool, a: FileRecord, t: seq<FileRecord>)
    requires Ordered(le, t) && forall y :: y in t ==> le(a, y)
    ensures Ordered(le, [a] + t)
  {
    var r := [a] + t;
    forall i, j | 0 <= i < j < |r| ensures le(r[i], r[j]) {
      assert r[j] == t[j - 1];
      if 0 < i {
        assert r[i] == t[i - 1];
      }
    }
  }

  /** The first row of an ordered sequence may precede every row of its tail with `x` inserted. */
  lemma HeadPrecedesRest(le: (FileRecord, FileRecord) -> bool, x: FileRecord, s: seq<FileRecord>)
    requires s != [] && Ordered(le, s) && le(s[0], x)
    ensures forall y :: y in Insert(le, x, s[1..]) ==> le(s[0], y)
  {
    forall k | 1 <= k < |s| ensures le(s[0], s[k]) {
    }
    assert forall y :: y in s[1..] ==> exists k :: 1 <= k < |s| && s[k] == y;
  }

  /** Sorting orders the rows. */
  lemma {:induction false} SortOrdered(le: (FileRecord, FileRecord) -> bool, s: seq<FileRecord>)
    requires TotalPreorder(le)
    ensures Ordered(le, Sort(le, s))
    decreases |s|
  {
    if s != [] {
      SortOrdered(le, s[..|s| - 1]);
      InsertOrdered(le, s[|s| - 1], Sort(le, s[..|s| - 1]));
    }
  }

  /** Sorting keeps every row, as many times as it occurs: it only reorders. */
  lemma {:induction false} SortPermutes(le: (FileRecord, FileRecord) -> bool, s: seq<FileRecord>)
    ensures multiset(Sort(le, s)) == multiset(s)
    decreases |s|
  {
    if s != [] {
      SortPermutes(le, s[..|s| - 1]);
      assert s == s[..|s| - 1] + [s[|s| - 1]];
    }
  }


  // ----- paging -----

  /** SQLite's `OFFSET`: a negative offset counts as none. */
  function Offset(skip: int): nat
  {
    if skip < 0 then 0 else skip
  }

  /**
   * `LIMIT limit OFFSET skip` on an ordered result: the rows from position
   * `Offset(skip)` on, at most `limit` of them; a negative `limit` sets no bound.
   */
  function Page(s: seq<FileRecord>, skip: int, limit: int): (r: seq<FileRecord>)
    ensures limit >= 0 ==> |r| <= limit
    ensures forall k :: 0 <= k < |r| ==> Offset(skip) + k < |s| && r[k] == s[Offset(skip) + k]
    ensures (limit < 0 || |r| < limit) ==> |r| == if Offset(skip) < |s| then |s| - Offset(skip) else 0
  {
    var start := if Offset(skip) < |s| then Offset(skip) else |s|;
    var stop := if limit < 0 || start + limit > |s| then |s| else start + limit;
    s[start..stop]
  }

  // ----- the handler -----

  /** The column `sort_by` names, when it is set and names one. */
  function SortColumn(q: Query): Option<Column>
  {
    if q.sortBy.Some? then ColumnNamed(q.sortBy.value) else None
  }

  /** The selected rows in the order the main query returns them, before paging. */
  function Selection(rows: seq<FileRecord>, q: Query): seq<FileRecord>
  {
    var matching := Filtered(rows, q);
    match SortColumn(q)
    case None => matching
    case Some(c) => Sort(OrderBy(c, q.order == "desc"), matching)
  }

  /** `get_files(skip, limit, search, extension, sort_by, order)` over the current table. */
  function GetFiles(db: Store, q: Query): FilesResponse
    reads db
    requires db.Valid()
  {
    var rows := db.Rows();
    FilesResponse(Page(Selection(rows, q), q.skip, q.limit), |Filtered(rows, q)|)
  }

  /** The ids of the rows the conditions of `q` select. */
  function SelectedIds(files: map<int, FileRecord>, q: Query): set<int>
  {
    set id | id in files && Selects(q, files[id])
  }

  lemma {:induction false} FilteredAscending(rows: seq<FileRecord>, q: Query)
    requires Ascending(rows)
    ensures Ascending(Filtered(rows, q))
    decreases |rows|
  {
    if rows != [] {
      var init, last := rows[..|rows| - 1], rows[|rows| - 1];
      FilteredAscending(init, q);
      var f := Filtered(init, q);
      forall k | 0 <= k < |f| ensures f[k].id < last.id {
        assert f[k] in init;
      }
    }
  }

  /** Along ascending ids every row has its own id, so there are as many ids as rows. */
  lemma {:induction false} IdsOfAscending(s: seq<FileRecord>)
    requires Ascending(s)
    ensures |IdsOf(s)| == |s|
    decreases |s|
  {
    if s != [] {
      var init, last := s[..|s| - 1], s[|s| - 1];
      assert Ascending(init) by {
        forall k, l | 0 <= k < l < |init| ensures init[k].id < init[l].id {
          assert init[k] == s[k] && init[l] == s[l];
        }
      }
      IdsOfAscending(init);
      IdsOfSnoc(s);
    }
  }

  /** The last row of an ascending sequence adds an id not seen before. */
  lemma IdsOfSnoc(s: seq<FileRecord>)
    requires s != [] && Ascending(s)
    ensures IdsOf(s) == IdsOf(s[..|s| - 1]) + {s[|s| - 1].id}
    ensures s[|s| - 1].id !in IdsOf(s[..|s| - 1])
  {
    var init, last := s[..|s| - 1], s[|s| - 1];
    assert s == init + [last];
    assert forall x :: x in s <==> x in init || x == last;
    forall x | x in init ensures x.id != last.id {
      var k :| 0 <= k < |init| && init[k] == x;
      assert s[k] == x;
    }
  }

  /**
   * `total` is the number of rows of the table the conditions select; it
   * depends neither on `skip` and `limit` nor on the ordering.
   */
  lemma GetFilesTotal(db: Store, q: Query)
    requires db.Valid()
    ensures GetFiles(db, q).total == |SelectedIds(db.files, q)|
  {
    var rows := db.Rows();
    var f := Filtered(rows, q);
    FilteredAscending(rows, q);
    IdsOfAscending(f);
    SelectedIdsOfRows(db.files, rows, q);
  }

  /** The selected ids are the ids of the filtered rows. */
  lemma SelectedIdsOfRows(files: map<int, FileRecord>, rows: seq<FileRecord>, q: Query)
    requires forall x :: x in rows <==> x.id in files && files[x.id] == x
    requires KeyedById(files)
    ensures SelectedIds(files, q) == IdsOf(Filtered(rows, q))
  {
    var f := Filtered(rows, q);
    forall id | id in SelectedIds(files, q) ensures id in IdsOf(f) {
      assert files[id] in f;
    }
    forall x | x in f ensures x.id in SelectedIds(files, q) {
    }
  }

  /**
   * The selection holds every selected row once, in `ORDER BY` order when
   * `sort_by` names a column and by ascending id otherwise.
   */
  lemma SelectionMeaning(rows: seq<FileRecord>, q: Query)
    requires Ascending(rows)
    ensures var sel := Selection(rows, q);
      && multiset(sel) == multiset(Filtered(rows, q))
      && (forall x :: x in sel <==> x in rows && Selects(q, x))
      && (SortColumn(q).Some? ==> Ordered(OrderBy(SortColumn(q).value, q.order == "desc"), sel))
      && (SortColumn(q).None? ==> Ascending(sel))
  {
    var f := Filtered(rows, q);
    match SortColumn(q)
    case None =>
      FilteredAscending(rows, q);
    case Some(c) =>
      var le := OrderBy(c, q.order == "desc");
      OrderByIsTotalPreorder(c, q.order == "desc");
      SortOrdered(le, f);
      SortPermutes(le, f);
      forall x ensures x in Sort(le, f) <==> x in f {
        assert x in Sort(le, f) <==> x in multiset(Sort(le, f));
      }
  }

  /**
   * The page is the selection from position `skip` on, cut to `limit` rows
   * when `limit` is not negative: it holds exactly that many rows, taken in
   * order, so each is a row of the table the conditions select.
   */
  lemma GetFilesItems(db: Store, q: Query)
    requires db.Valid()
    ensures var items := GetFiles(db, q).items;
      var remaining := if Offset(q.skip) < |Selection(db.Rows(), q)| then |Selection(db.Rows(), q)| - Offset(q.skip) else 0;
      && |items| == (if 0 <= q.limit < remaining then q.limit else remaining)
      && (forall k :: 0 <= k < |items| ==>
            Offset(q.skip) + k < |Selection(db.Rows(), q)| && items[k] == Selection(db.Rows(), q)[Offset(q.skip) + k])
      && (forall x :: x in items ==> x.id in db.files && db.files[x.id] == x && Selects(q, x))
  {
    var rows := db.Rows();
    var items := Page(Selection(rows, q), q.skip, q.limit);
    assert GetFiles(db, q).items == items;
    PageOfSelection(rows, q);
    forall x | x in items ensures x.id in db.files && db.files[x.id] == x && Selects(q, x) {
      assert x in rows;
    }
  }

  /** Every row of the page is a selected row. */
  lemma PageOfSelection(rows: seq<FileRecord>, q: Query)
    requires Ascending(rows)
    ensures forall x :: x in Page(Selection(rows, q), q.skip, q.limit) ==> x in rows && Selects(q, x)
  {
    var sel := Selection(rows, q);
    SelectionMeaning(rows, q);
    var items := Page(sel, q.skip, q.limit);
    forall k | 0 <= k < |items| ensures items[k] in rows && Selects(q, items[k]) {
      assert items[k] == sel[Offset(q.skip) + k] && sel[Offset(q.skip) + k] in sel;
    }
  }

  /** Absent or empty `search` and `extension` select every row, so `total` is the size of the table. */
  lemma NoConditionsCountEverything(db: Store, q: Query)
    requires db.Valid()
    requires q.search.None? || q.search.value == []
    requires q.extension.None? || q.extension.value == []
    ensures GetFiles(db, q).total == |db.files|
  {
    GetFilesTotal(db, q);
    assert SelectedIds(db.files, q) == db.files.Keys;
  }

  /** With no conditions, no offset and `limit=1`, a table holding any row lists exactly one. */
  lemma LimitOneListsOneRow(db: Store, q: Query, id: int)
    requires db.Valid() && id in db.files
    requires q.search.None? && q.extension.None? && q.skip == 0 && q.limit == 1
    ensures |GetFiles(db, q).items| == 1
  {
    var rows := db.Rows();
    assert db.files[id] in Filtered(rows, q);
    SelectionMeaning(rows, q);
    assert db.files[id] in multiset(Selection(rows, q));
  }
}
