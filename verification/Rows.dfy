/**
 The data model: one row per slot of the `entries` table, the singleton row of `store_state`, and the
 statements that act on them (sqlite/sql/schema_base.sql). A `string` is a C++ std::string, one
 `char` per byte.
 */
module Rows {
  import opened Sorting

  datatype Option<+T> = None | Some(value: T) {
    function GetOr(default: T): T {
      if Some? then value else default
    }
  }

  lemma Assoc<T>(a: seq<T>, b: seq<T>, c: seq<T>)
    ensures a + (b + c) == (a + b) + c
  {
  }

  // A TEXT column: it is bound and read back as a NUL-terminated string.
  type Text = s: string | '\0' !in s

  /** What binding `s.c_str()` with length -1 stores: everything before the first NUL. */
  function CString(s: string): (r: Text)
    ensures r <= s
    ensures |r| < |s| ==> s[|r|] == '\0'
  {
    if s == "" || s[0] == '\0' then "" else [s[0]] + CString(s[1..])
  }

  /** An uploaded file, named entry_<slot>_<stamp> inside the upload directory. */
  datatype Path = EntryFile(slot: int, stamp: int)

  datatype SourceKind = DirectText | FileUpload
  datatype MediaKind = TextMedia | ImageMedia | AudioMedia | VideoMedia | BinaryMedia

  const TEXT_MIME: Text := "text/plain; charset=utf-8"

  function MediaKindForMime(mime: string): MediaKind {
    if "text/" <= mime || mime in {
      "application/json", "application/ld+json", "application/xml", "application/yaml",
      "application/x-yaml", "application/toml", "application/javascript"}
    then TextMedia
    else if "image/" <= mime then ImageMedia
    else if "audio/" <= mime then AudioMedia
    else if "video/" <= mime then VideoMedia
    else BinaryMedia
  }

  datatype Row = Row(
    used: bool,
    source: Option<SourceKind>,
    media: Option<MediaKind>,
    content: Option<Text>,
    path: Option<Path>,
    filename: Option<Text>,
    mime: Option<Text>,
    size: int,
    stored: Option<int>,
    updated: Option<int>)

  const EMPTY_ROW := Row(false, None, None, None, None, None, None, 0, None, None)

  function TextRow(content: string, stored: int, updated: int): Row {
    Row(true, Some(DirectText), Some(TextMedia), Some(CString(content)), None,
        None, Some(TEXT_MIME), |content|, Some(stored), Some(updated))
  }

  function FileRow(filename: string, mime: string, data: string, path: Path, stored: int, updated: int): Row {
    Row(true, Some(FileUpload), Some(MediaKindForMime(mime)), None, Some(path),
        Some(CString(filename)), Some(CString(mime)), |data|, Some(stored), Some(updated))
  }

  // The `entries` table and the `store_state` row; `max == 0` stands for a missing store_state row.
  datatype Db = Db(rows: map<int, Row>, next: int, max: nat)

  const NO_STORE := Db(map[], 1, 0)

  // ----- Statements -----

  /** UPDATE entries SET .. WHERE id = ?; changes nothing when there is no such row. */
  function UpdateRow(db: Db, id: int, row: Row): Db {
    if id in db.rows then db.(rows := db.rows[id := row]) else db
  }

  /** The cursor moves to the next slot, from the last one to slot 1. */
  function AdvanceNext(db: Db): Db {
    db.(next := if db.next >= db.max then 1 else db.next + 1)
  }

  function PreviousSlot(db: Db): Option<int> {
    if db.max < 1 then None else Some(if db.next == 1 then db.max else db.next - 1)
  }

  // ----- Reading an entry -----

  datatype KaringRecord = KaringRecord(
    id: int, isFile: bool, content: string, filename: string, mime: string,
    createdAt: int, updatedAt: Option<int>)

  /** The record load_entry fills in from a row. */
  function LoadedRecord(id: int, row: Row): KaringRecord {
    KaringRecord(id, row.media.Some? && row.media != Some(TextMedia), row.content.GetOr(""),
                 row.filename.GetOr(""), row.mime.GetOr(""), Age(row), row.updated)
  }

  // ----- What every reachable table satisfies -----

  ghost predicate DomainOk(db: Db) {
    && (forall id :: id in db.rows <==> 1 <= id <= db.max)
    && 1 <= db.next
    && (if db.max == 0 then db.next == 1 else db.next <= db.max)
  }

  ghost predicate TextShape(r: Row) {
    && r.used && r.source == Some(DirectText) && r.media == Some(TextMedia)
    && r.content.Some? && r.path.None? && r.filename.None? && r.mime == Some(TEXT_MIME)
    && 0 <= r.size && r.stored.Some? && r.updated.Some?
  }

  ghost predicate FileShape(r: Row) {
    && r.used && r.source == Some(FileUpload) && r.media.Some?
    && r.content.None? && r.path.Some? && r.filename.Some? && r.mime.Some?
    && 0 <= r.size && r.stored.Some? && r.updated.Some?
  }

  ghost predicate RowOk(r: Row) {
    r == EMPTY_ROW || TextShape(r) || FileShape(r)
  }

  ghost predicate RowsOk(db: Db) {
    forall id :: id in db.rows ==> RowOk(db.rows[id])
  }

  ghost predicate DistinctPaths(db: Db) {
    forall i, j :: i in db.rows && j in db.rows && i != j
      && db.rows[i].path.Some? && db.rows[j].path.Some?
      ==> db.rows[i].path != db.rows[j].path
  }

  ghost predicate GoodDb(db: Db) {
    DomainOk(db) && RowsOk(db) && DistinctPaths(db)
  }

  /** `p` is the file of some row. */
  ghost predicate Refers(db: Db, p: Path) {
    exists id :: id in db.rows && db.rows[id].path == Some(p)
  }

  predicate IsUsed(db: Db, id: int) {
    id in db.rows && db.rows[id].used
  }

  function PathAt(db: Db, id: int): Option<Path> {
    if id in db.rows then db.rows[id].path else None
  }

  function Age(row: Row): int {
    row.stored.GetOr(0)
  }

  // ----- The used rows, in id order, keyed by storing time -----

  // SQL's ORDER BY puts NULL first; the C++ comparator reads NULL as 0.
  datatype Collation = NullsFirst | NullsAsZero

  function Entry(c: Collation, id: int, row: Row): Keyed<Row> {
    Keyed(if c == NullsFirst && row.stored.None? then 0 else 1, Age(row), id, row)
  }

  function Active(c: Collation, rows: map<int, Row>, n: nat): seq<Keyed<Row>> {
    if n == 0 then []
    else Active(c, rows, n - 1) + if n in rows && rows[n].used then [Entry(c, n, rows[n])] else []
  }

  ghost predicate IsEntry(c: Collation, rows: map<int, Row>, n: int, e: Keyed<Row>) {
    1 <= e.id <= n && e.id in rows && rows[e.id].used && e == Entry(c, e.id, rows[e.id])
  }

  lemma {:induction false} ActiveSound(c: Collation, rows: map<int, Row>, n: nat)
    ensures |Active(c, rows, n)| <= n
    ensures forall i :: 0 <= i < |Active(c, rows, n)| ==> IsEntry(c, rows, n, Active(c, rows, n)[i])
    ensures DistinctIds(Active(c, rows, n))
  {
    if n > 0 {
      ActiveSound(c, rows, n - 1);
    }
  }

  lemma {:induction false} ActiveComplete(c: Collation, rows: map<int, Row>, n: nat, id: int)
    requires 1 <= id <= n && id in rows && rows[id].used
    ensures Entry(c, id, rows[id]) in Active(c, rows, n)
  {
    if id < n {
      ActiveComplete(c, rows, n - 1, id);
    }
  }

  lemma {:induction false} ActiveCollation(rows: map<int, Row>, n: nat)
    requires forall id :: id in rows && rows[id].used ==> rows[id].stored.Some?
    ensures Active(NullsFirst, rows, n) == Active(NullsAsZero, rows, n)
  {
    if n > 0 {
      ActiveCollation(rows, n - 1);
    }
  }

  function ByAge(c: Collation, db: Db): seq<Keyed<Row>>
  {
    Sort(Active(c, db.rows, db.max))
  }

  /** Everything the later proofs need to know about the used rows sorted by age. */
  lemma ByAgeSound(c: Collation, db: Db)
    ensures Ordered(ByAge(c, db))
    ensures |ByAge(c, db)| <= db.max
    ensures forall i :: 0 <= i < |ByAge(c, db)| ==> IsEntry(c, db.rows, db.max, ByAge(c, db)[i])
    ensures DistinctIds(ByAge(c, db))
  {
    var a := Active(c, db.rows, db.max);
    ActiveSound(c, db.rows, db.max);
    SortPermutes(a);
    SortOrders(a);
    forall i | 0 <= i < |Sort(a)|
      ensures IsEntry(c, db.rows, db.max, Sort(a)[i])
    {
      assert Sort(a)[i] in multiset(Sort(a));
    }
  }

  lemma ByAgeComplete(c: Collation, db: Db, id: int) returns (i: nat)
    requires 1 <= id <= db.max && IsUsed(db, id)
    ensures i < |ByAge(c, db)| && ByAge(c, db)[i] == Entry(c, id, db.rows[id])
  {
    var a := Active(c, db.rows, db.max);
    ActiveComplete(c, db.rows, db.max, id);
    SortPermutes(a);
    assert Entry(c, id, db.rows[id]) in multiset(Sort(a));
    i :| 0 <= i < |Sort(a)| && Sort(a)[i] == Entry(c, id, db.rows[id]);
  }
}
