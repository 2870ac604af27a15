/**
 Rows plus upload directory refine a plain map from slot id to record, payload included. The abstract
 machine knows no files and no empty rows; every request commutes with the abstraction, and what a
 reader sees is a function of the abstract state.
 */
module Refinement {
  import opened Sorting
  import opened Rows
  import opened Compaction
  import opened CompactionLaws
  import opened StoreMachine

  datatype Record = Record(
    source: Option<SourceKind>, media: Option<MediaKind>, content: Option<Text>,
    filename: Option<Text>, mime: Option<Text>, size: int,
    stored: Option<int>, updated: Option<int>, blob: Option<string>)

  datatype Notebook = Notebook(records: map<int, Record>, next: int, max: nat)

  // ----- The abstraction -----

  function Inline(row: Row, disk: Disk): Record {
    Record(row.source, row.media, row.content, row.filename, row.mime, row.size, row.stored, row.updated,
           if row.path.Some? && row.path.value in disk then Some(disk[row.path.value]) else None)
  }

  function Records(rows: map<int, Row>, disk: Disk): map<int, Record> {
    map id | id in rows && rows[id].used :: Inline(rows[id], disk)
  }

  function Abs(s: Snapshot): Notebook {
    Notebook(Records(s.db.rows, s.disk), s.db.next, s.db.max)
  }

  // ----- The abstract machine -----

  function TextRecord(content: string, stored: Option<int>, now: int): Record {
    Record(Some(DirectText), Some(TextMedia), Some(CString(content)), None, Some(TEXT_MIME),
           |content|, stored, Some(now), None)
  }

  function FileRecord(filename: string, mime: string, data: string, stored: Option<int>, now: int): Record {
    Record(Some(FileUpload), Some(MediaKindForMime(mime)), None, Some(CString(filename)),
           Some(CString(mime)), |data|, stored, Some(now), Some(data))
  }

  function Store(n: Notebook, r: Record): Notebook {
    if n.max == 0 then n
    else Notebook(n.records[n.next := r], if n.next >= n.max then 1 else n.next + 1, n.max)
  }

  function Amend(n: Notebook, id: int, r: Record): Notebook {
    n.(records := n.records[id := r])
  }

  function Exchange(n: Notebook, i: int, j: int): Notebook {
    var bare := n.records - {i, j};
    var one := if i in n.records then bare[j := n.records[i]] else bare;
    if 1 <= i <= n.max && 1 <= j <= n.max
    then n.(records := if j in n.records then one[i := n.records[j]] else one)
    else n
  }

  function NoteKey(id: int, r: Record): Keyed<Record> {
    Keyed(1, r.stored.GetOr(0), id, r)
  }

  function Noted(records: map<int, Record>, n: nat): seq<Keyed<Record>> {
    if n == 0 then []
    else Noted(records, n - 1) + if n in records then [NoteKey(n, records[n])] else []
  }

  function OldestToNewest(n: Notebook): seq<Record> {
    Vals(Sort(Noted(n.records, n.max)))
  }

  /** The given records in slots 1, 2, .. */
  function Numbered(rs: seq<Record>): map<int, Record> {
    map id | id in Ids(|rs|) :: rs[id - 1]
  }

  function Trimmed(r: Record): Record {
    r.(size := Int32(r.size), stored := Some(r.stored.GetOr(0)), updated := Some(r.updated.GetOr(0)))
  }

  predicate Storable(rs: seq<Record>) {
    forall i :: 0 <= i < |rs| ==> Int32(rs[i].size) >= 0
  }

  function Newest(n: Notebook, limit: int): seq<Record>
    requires 1 <= limit
  {
    var rs := OldestToNewest(n);
    rs[DropCount(|rs|, limit)..]
  }

  function Resizes(n: Notebook, limit: int, force: bool): Notebook {
    if limit < 1 then n
    else if limit >= n.max then Notebook(n.records, ClampNext(n.next, limit), limit)
    else if !force then
      if exists id :: id in n.records && id > limit then n
      else Notebook(n.records, ClampNext(n.next, limit), limit)
    else
      var rs := Newest(n, limit);
      if Storable(rs) then Notebook(TrimmedFrom1(rs), 1, limit) else n
  }

  function ResizesBlind(n: Notebook, limit: int, force: bool): Notebook {
    if limit < 1 || limit >= n.max then Resizes(n, limit, force)
    else if !force then Notebook(FirstNotes(n, limit).records, ClampNext(n.next, limit), limit)
    else
      var all := OldestToNewest(n);
      var rs := if |all| <= limit then all else all[..limit];
      if Storable(rs) then Notebook(TrimmedFrom1(rs), 1, limit) else n
  }

  function FirstNotes(n: Notebook, m: nat): Notebook {
    Notebook(map id | id in n.records && id <= m :: n.records[id], 1, m)
  }

  function TrimmedFrom1(rs: seq<Record>): map<int, Record> {
    Numbered(seq(|rs|, i requires 0 <= i < |rs| => Trimmed(rs[i])))
  }

  function Renumbered(n: Notebook, scanned: nat): Notebook {
    var first := FirstNotes(n, if scanned <= n.max then scanned else n.max);
    var rs := OldestToNewest(first);
    Notebook((n.records - first.records.Keys) + Numbered(rs), if |rs| >= first.max then 1 else |rs| + 1, n.max)
  }

  function Last(n: Notebook): int {
    if n.next == 1 then n.max else n.next - 1
  }

  function Step(n: Notebook, op: Op): Notebook {
    match op
    case InsertText(content, now) => Store(n, TextRecord(content, Some(now), now))
    case InsertFile(filename, mime, data, _, now) => Store(n, FileRecord(filename, mime, data, Some(now), now))
    case UpdateText(id, content, now) =>
      if id in n.records then Amend(n, id, TextRecord(content, n.records[id].stored, now)) else n
    case UpdateFile(id, filename, mime, data, _, now) =>
      if id in n.records then Amend(n, id, FileRecord(filename, mime, data, n.records[id].stored, now)) else n
    case PatchText(id, newContent, now) =>
      if id in n.records && n.records[id].media in {None, Some(TextMedia)} && n.records[id].blob.None?
      then Amend(n, id, TextRecord(newContent.GetOr(n.records[id].content.GetOr("")), n.records[id].stored, now))
      else n
    case PatchFile(id, newFilename, newMime, newData, _, now) =>
      if id in n.records && n.records[id].blob.Some?
      then Amend(n, id, FileRecord(newFilename.GetOr(n.records[id].filename.GetOr("")),
                                   newMime.GetOr(n.records[id].mime.GetOr("")),
                                   newData.GetOr(n.records[id].blob.value), n.records[id].stored, now))
      else n
    case Delete(id) => n.(records := n.records - {id})
    case DeleteLatest(maxAge, now) =>
      if Last(n) in n.records && now - n.records[Last(n)].stored.GetOr(0) <= maxAge
      then n.(records := n.records - {Last(n)})
      else n
    case Swap(i, j) => Exchange(n, i, j)
    case Resequence(scanned) => Renumbered(n, scanned)
    case Restart(limit, force, counted) => if counted then Resizes(n, limit, force) else ResizesBlind(n, limit, force)
  }

  // ----- Every operation commutes with the abstraction -----

  lemma RecordsFrame(db: Db, disk: Disk, disk': Disk)
    requires forall p :: Refers(db, p) ==> p in disk && p in disk' && disk'[p] == disk[p]
    ensures Records(db.rows, disk') == Records(db.rows, disk)
  {
    forall id | id in db.rows && db.rows[id].used
      ensures Inline(db.rows[id], disk') == Inline(db.rows[id], disk)
    {
      if db.rows[id].path.Some? {
        assert Refers(db, db.rows[id].path.value);
      }
    }
  }

  lemma PutAbs(s: Snapshot, id: int, row: Row, disk: Disk)
    requires Inv(s) && id in s.db.rows
    requires if row.path.Some?
             then row.path.value !in s.disk && row.path.value in disk
                  && disk == s.disk[row.path.value := disk[row.path.value]]
             else disk == s.disk
    ensures var t := PutRow(s, id, row, disk);
      Records(t.db.rows, t.disk) ==
        if row.used then Records(s.db.rows, s.disk)[id := Inline(row, disk)]
        else Records(s.db.rows, s.disk) - {id}
  {
    var t := PutRow(s, id, row, disk);
    if s.db.rows[id].path.Some? {
      assert Refers(s.db, s.db.rows[id].path.value);
    }
    forall k | k in s.db.rows && s.db.rows[k].used && k != id
      ensures Inline(s.db.rows[k], t.disk) == Inline(s.db.rows[k], s.disk)
    {
      if s.db.rows[k].path.Some? {
        assert Refers(s.db, s.db.rows[k].path.value);
      }
    }
  }

  lemma UpdateTextAbs(s: Snapshot, id: int, content: string, now: int)
    requires Inv(s)
    ensures Abs(ApplyUpdateText(s, id, content, now)) ==
      if IsUsed(s.db, id) then Amend(Abs(s), id, TextRecord(content, s.db.rows[id].stored, now)) else Abs(s)
  {
    if IsUsed(s.db, id) {
      PutAbs(s, id, TextRow(content, 0, now).(stored := s.db.rows[id].stored), s.disk);
    }
  }

  lemma UpdateFileAbs(s: Snapshot, id: int, filename: string, mime: string, data: string, stamp: int, now: int)
    requires Inv(s) && EntryFile(id, stamp) !in s.disk
    ensures Abs(ApplyUpdateFile(s, id, filename, mime, data, stamp, now)) ==
      if IsUsed(s.db, id)
      then Amend(Abs(s), id, FileRecord(filename, mime, data, s.db.rows[id].stored, now))
      else Abs(s)
  {
    var p := EntryFile(id, stamp);
    if IsUsed(s.db, id) {
      PutAbs(s, id, FileRow(filename, mime, data, p, 0, now).(stored := s.db.rows[id].stored), s.disk[p := data]);
    }
  }

  lemma DeleteAbs(s: Snapshot, id: int)
    requires Inv(s)
    ensures Abs(ApplyDelete(s, id)) == Abs(s).(records := Abs(s).records - {id})
  {
    if id in s.db.rows {
      PutAbs(s, id, EMPTY_ROW, s.disk);
    }
  }

  /** A referenced file is on disk, so a row has a file exactly when its record has a payload. */
  lemma InlineAt(s: Snapshot, id: int)
    requires Inv(s) && IsUsed(s.db, id)
    ensures Abs(s).records[id].blob.Some? <==> s.db.rows[id].path.Some?
    ensures s.db.rows[id].path.Some? ==>
      s.db.rows[id].path.value in s.disk && Abs(s).records[id].blob == Some(s.disk[s.db.rows[id].path.value])
    ensures s.db.rows[id].stored.Some?
  {
  }

  lemma {:induction false} NotedIsActive(db: Db, disk: Disk, n: nat)
    requires RowsOk(db)
    ensures Noted(Records(db.rows, disk), n) ==
      MapVals((r: Row) => Inline(r, disk), Active(NullsAsZero, db.rows, n))
  {
    if n > 0 {
      NotedIsActive(db, disk, n - 1);
    }
  }

  lemma OldestToNewestAbs(s: Snapshot)
    requires RowsOk(s.db)
    ensures |OldestToNewest(Abs(s))| == |ByAge(NullsAsZero, s.db)|
    ensures forall i :: 0 <= i < |ByAge(NullsAsZero, s.db)| ==>
      OldestToNewest(Abs(s))[i] == Inline(ByAge(NullsAsZero, s.db)[i].val, s.disk)
  {
    var f := (r: Row) => Inline(r, s.disk);
    NotedIsActive(s.db, s.disk, s.db.max);
    SortMapVals(f, Active(NullsAsZero, s.db.rows, s.db.max));
  }

  lemma PackedAbs(rs: seq<Row>, n: int, disk: Disk, qs: seq<Record>)
    requires AllUsed(rs) && |rs| <= n && |qs| == |rs|
    requires forall i :: 0 <= i < |rs| ==> qs[i] == Inline(rs[i], disk)
    ensures Records(Packed(rs, n), disk) == Numbered(qs)
  {
  }

  lemma ResequencedAbs(s: Snapshot)
    requires Inv(s)
    ensures Records(Resequenced(s.db).rows, s.disk) == Numbered(OldestToNewest(Abs(s)))
    ensures Resequenced(s.db).next ==
      if |OldestToNewest(Abs(s))| >= s.db.max then 1 else |OldestToNewest(Abs(s))| + 1
  {
    ByAgeRises(s.db);
    OldestToNewestAbs(s);
    PackedAbs(Vals(ByAge(NullsAsZero, s.db)), s.db.max, s.disk, OldestToNewest(Abs(s)));
  }

  lemma FirstSlotsAbs(s: Snapshot, n: nat)
    requires Inv(s) && n <= s.db.max
    ensures Inv(Snapshot(FirstSlots(s.db, n), s.disk))
    ensures Abs(Snapshot(FirstSlots(s.db, n), s.disk)) == FirstNotes(Abs(s), n)
  {
  }

  lemma MergedRecords(rows: map<int, Row>, part: map<int, Row>, n: nat, gone: set<int>, disk: Disk)
    requires forall id :: id in part <==> 1 <= id <= n
    requires forall id :: id in rows ==> 1 <= id
    requires forall id :: id in gone <==> id in rows && rows[id].used && id <= n
    ensures Records(rows + part, disk) == (Records(rows, disk) - gone) + Records(part, disk)
  {
    var m, m' := Records(rows + part, disk), (Records(rows, disk) - gone) + Records(part, disk);
    assert forall id :: id in m <==> id in m';
    assert forall id :: id in m ==> m[id] == m'[id];
  }

  lemma ResequenceAbs(s: Snapshot, scanned: nat)
    requires Inv(s)
    ensures Abs(Apply(s, Resequence(scanned))) == Step(Abs(s), Resequence(scanned))
  {
    var n := if scanned <= s.db.max then scanned else s.db.max;
    var first := Snapshot(FirstSlots(s.db, n), s.disk);
    FirstSlotsAbs(s, n);
    ResequencedAbs(first);
    assert forall id :: id in Resequenced(first.db).rows <==> 1 <= id <= n;
    hide Resequenced, OldestToNewest, Records;
    MergedRecords(s.db.rows, Resequenced(first.db).rows, n, FirstNotes(Abs(s), n).records.Keys, s.disk);
  }

  lemma SwapAbs(s: Snapshot, i: int, j: int)
    requires Inv(s)
    ensures Abs(Apply(s, Swap(i, j))) == Step(Abs(s), Swap(i, j))
  {
  }

  lemma SameRecords(rows: map<int, Row>, rows': map<int, Row>, disk: Disk)
    requires forall id :: id in rows && rows[id].used ==> id in rows' && rows'[id] == rows[id]
    requires forall id :: id in rows' && rows'[id].used ==> id in rows && rows[id].used
    ensures Records(rows', disk) == Records(rows, disk)
  {
    var m, m' := Records(rows, disk), Records(rows', disk);
    assert forall id :: id in m' <==> id in m;
    assert forall id :: id in m ==> m'[id] == m[id];
  }

  // Rows that correspond to records correspond to them after the shrink has reloaded them.
  lemma ReloadAbs(rows: seq<Row>, n: int, disk: Disk, rs: seq<Record>)
    requires AllUsed(rows) && |rows| <= n && |rs| == |rows|
    requires forall i :: 0 <= i < |rows| ==> rs[i] == Inline(rows[i], disk)
    ensures Records(Packed(Reload(rows), n), disk) == TrimmedFrom1(rs)
    ensures SizesStorable(rows) <==> Storable(rs)
  {
  }

  lemma BlindShrinkAbs(s: Snapshot, limit: int)
    requires Inv(s) && 1 <= limit < s.db.max
    ensures Abs(Apply(s, Restart(limit, true, false))) == Step(Abs(s), Restart(limit, true, false))
  {
    CollationsAgree(s.db);
    OldestToNewestAbs(s);
    ByAgeRows(NullsFirst, s.db);
    var kept := Vals(OldestEntries(s.db, limit));
    var all := OldestToNewest(Abs(s));
    var rs := if |all| <= limit then all else all[..limit];
    forall i | 0 <= i < |kept| ensures kept[i].used && rs[i] == Inline(kept[i], s.disk) {
      assert kept[i] == ByAge(NullsFirst, s.db)[i].val;
    }
    ReloadAbs(kept, limit, s.disk, rs);
    assert WithoutAll(s.disk, []) == s.disk;
    assert ResizesBlind(Abs(s), limit, true) ==
      if Storable(rs) then Notebook(TrimmedFrom1(rs), 1, limit) else Abs(s);
  }

  lemma BlindResizeAbs(s: Snapshot, limit: int, force: bool)
    requires Inv(s) && 1 <= limit < s.db.max
    ensures Abs(Apply(s, Restart(limit, force, false))) == Step(Abs(s), Restart(limit, force, false))
  {
    if force {
      BlindShrinkAbs(s, limit);
    } else {
      var t := Apply(s, Restart(limit, force, false));
      assert t.disk == s.disk;
      assert Records(t.db.rows, s.disk) == FirstNotes(Abs(s), limit).records;
    }
  }

  lemma PlainResizeAbs(s: Snapshot, limit: int, force: bool, counted: bool)
    requires Inv(s) && (limit < 1 || limit >= s.db.max || (!force && counted))
    ensures Abs(Apply(s, Restart(limit, force, counted))) == Step(Abs(s), Restart(limit, force, counted))
  {
    var n, t := Abs(s), Apply(s, Restart(limit, force, counted));
    if limit >= 1 && limit >= s.db.max {
      EnsureSlotsRows(s.db.rows, 1, limit);
      assert t.disk == s.disk;
      SameRecords(s.db.rows, t.db.rows, s.disk);
    } else if limit >= 1 {
      assert UsedAbove(s.db, limit) <==> exists id :: id in n.records && id > limit by {
        if id :| id in s.db.rows && id > limit && s.db.rows[id].used {
          assert id in n.records;
        }
      }
      if !UsedAbove(s.db, limit) {
        assert t.disk == s.disk;
        SameRecords(s.db.rows, t.db.rows, s.disk);
      }
    }
  }

  lemma ForcedShrinkAbs(s: Snapshot, limit: int)
    requires Inv(s) && 1 <= limit < s.db.max
    ensures Abs(Apply(s, Restart(limit, true, true))) == Step(Abs(s), Restart(limit, true, true))
  {
    var n, db := Abs(s), s.db;
    CollationsAgree(db);
    OldestToNewestAbs(s);
    ByAgeRows(NullsFirst, db);
    var sorted := ByAge(NullsFirst, db);
    var drop := DropCount(|sorted|, limit);
    var kept, newest := KeptRows(db, limit), Newest(n, limit);
    forall i | 0 <= i < |kept| ensures kept[i].used && newest[i] == Inline(kept[i], s.disk) {
      assert kept[i] == sorted[drop + i].val;
    }
    ReloadAbs(kept, limit, s.disk, newest);
    if SizesStorable(kept) {
      ResizeGood(db, limit, true);
      var t := Apply(s, Restart(limit, true, true));
      RecordsFrame(t.db, s.disk, t.disk);
    }
  }

  // The refinement: whatever the request, doing it on rows and files and then inlining the payloads is
  // the same as doing the abstract step on the inlined records.
  lemma ApplyRefines(s: Snapshot, op: Op)
    requires Inv(s) && Fresh(s, op)
    ensures Abs(Apply(s, op)) == Step(Abs(s), op)
  {
    match op
    case InsertText(content, now) =>
      if s.db.next in s.db.rows {
        PutAbs(s, s.db.next, TextRow(content, now, now), s.disk);
      }
    case InsertFile(filename, mime, data, stamp, now) =>
      var p := EntryFile(s.db.next, stamp);
      if s.db.next in s.db.rows {
        PutAbs(s, s.db.next, FileRow(filename, mime, data, p, now, now), s.disk[p := data]);
      }
    case UpdateText(id, content, now) => UpdateTextAbs(s, id, content, now);
    case UpdateFile(id, filename, mime, data, stamp, now) =>
      UpdateFileAbs(s, id, filename, mime, data, stamp, now);
    case PatchText(id, newContent, now) =>
      if IsUsed(s.db, id) {
        InlineAt(s, id);
        UpdateTextAbs(s, id, newContent.GetOr(s.db.rows[id].content.GetOr("")), now);
      }
    case PatchFile(id, newFilename, newMime, newData, stamp, now) =>
      if IsUsed(s.db, id) {
        InlineAt(s, id);
        var blob := PatchBlob(s, id, newData);
        if blob.Some? {
          UpdateFileAbs(s, id, newFilename.GetOr(s.db.rows[id].filename.GetOr("")),
                        newMime.GetOr(s.db.rows[id].mime.GetOr("")), blob.value, stamp, now);
        }
      }
    case Delete(id) => DeleteAbs(s, id);
    case DeleteLatest(maxAge, now) =>
      if IsUsed(s.db, Last(Abs(s))) {
        InlineAt(s, Last(Abs(s)));
      }
      DeleteAbs(s, Last(Abs(s)));
    case Swap(i, j) => SwapAbs(s, i, j);
    case Resequence(scanned) => ResequenceAbs(s, scanned);
    case Restart(limit, force, counted) =>
      if limit < 1 || limit >= s.db.max || (!force && counted) {
        PlainResizeAbs(s, limit, force, counted);
      } else if counted {
        ForcedShrinkAbs(s, limit);
      } else {
        BlindResizeAbs(s, limit, force);
      }
  }

  // Leftover files, failures and crashes are invisible: the abstract state is the one before or after.
  lemma NextRefines(s: Snapshot, op: Op, t: Snapshot)
    requires Inv(s) && Fresh(s, op) && Next(s, op, t)
    ensures Abs(t) == Abs(s) || Abs(t) == Step(Abs(s), op)
  {
    ApplyKeepsInv(s, op);
    ApplyRefines(s, op);
    if Covers(t, s) {
      RecordsFrame(s.db, s.disk, t.disk);
    } else {
      RecordsFrame(t.db, Apply(s, op).disk, t.disk);
    }
  }

  // ----- What readers see -----

  /** get_by_id */
  function GetById(s: Snapshot, id: int): Option<KaringRecord> {
    if IsUsed(s.db, id) then Some(LoadedRecord(id, s.db.rows[id])) else None
  }

  datatype Blob = Blob(mime: string, filename: string, data: string)

  function OrElse(s: string, default: string): string {
    if s == "" then default else s
  }

  /** get_file_blob */
  function GetFileBlob(s: Snapshot, id: int): Option<Blob> {
    if !IsUsed(s.db, id) || s.db.rows[id].path.None? || s.db.rows[id].path.value !in s.disk then None
    else
      var r := LoadedRecord(id, s.db.rows[id]);
      Some(Blob(OrElse(r.mime, "application/octet-stream"), OrElse(r.filename, "download"),
                s.disk[s.db.rows[id].path.value]))
  }

  ghost predicate SameView(s: Snapshot, t: Snapshot, id: int) {
    GetById(t, id) == GetById(s, id) && GetFileBlob(t, id) == GetFileBlob(s, id)
  }

  lemma ViewIsAbstract(s: Snapshot, t: Snapshot, id: int)
    requires id in Abs(s).records <==> id in Abs(t).records
    requires id in Abs(s).records ==> Abs(t).records[id] == Abs(s).records[id]
    ensures SameView(s, t, id)
  {
  }

  /** The one slot an insert, update, patch or delete may write. */
  function Target(s: Snapshot, op: Op): Option<int> {
    match op
    case InsertText(_, _) => Some(s.db.next)
    case InsertFile(_, _, _, _, _) => Some(s.db.next)
    case UpdateText(id, _, _) => Some(id)
    case UpdateFile(id, _, _, _, _, _) => Some(id)
    case PatchText(id, _, _) => Some(id)
    case PatchFile(id, _, _, _, _, _) => Some(id)
    case Delete(id) => Some(id)
    case DeleteLatest(_, _) => Some(Last(Abs(s)))
    case _ => None
  }

  // What readers get for slot j is untouched by any insert, update, patch or delete on another slot,
  // even one that fails half-way.
  lemma OtherSlotsUnchanged(s: Snapshot, op: Op, t: Snapshot, j: int)
    requires Inv(s) && Fresh(s, op) && Next(s, op, t)
    requires Target(s, op).Some? && Target(s, op).value != j
    ensures SameView(s, t, j)
  {
    NextRefines(s, op, t);
    ViewIsAbstract(s, t, j);
  }

  /** Readers of slot `k` in `t` get what readers of slot `i` got in `s`, under the new id. */
  ghost predicate Shows(t: Snapshot, k: int, s: Snapshot, i: int) {
    && GetFileBlob(t, k) == GetFileBlob(s, i)
    && GetById(t, k) == if GetById(s, i).None? then None else Some(GetById(s, i).value.(id := k))
  }

  lemma RowShows(t: Snapshot, k: int, s: Snapshot, i: int)
    requires Inv(s) && Extends(t.disk, s.disk)
    requires IsUsed(t.db, k) <==> IsUsed(s.db, i)
    requires IsUsed(s.db, i) ==> t.db.rows[k] == s.db.rows[i]
    ensures Shows(t, k, s, i)
    ensures k == i ==> SameView(s, t, k)
  {
    if IsUsed(s.db, i) && s.db.rows[i].path.Some? {
      assert Refers(s.db, s.db.rows[i].path.value);
    }
  }

  lemma UsedOrigin(db: Db, origin: seq<int>)
    requires AgeOrigin(db, origin)
    ensures forall p :: 0 <= p < |origin| ==> IsUsed(db, origin[p])
  {
  }

  lemma UnusedShowsNothing(t: Snapshot, id: int)
    requires !IsUsed(t.db, id)
    ensures GetById(t, id).None? && GetFileBlob(t, id).None?
  {
  }

  // A swap exchanges what readers get for the two slots, and touches no other.
  lemma SwapExchangesViews(s: Snapshot, i: int, j: int, t: Snapshot)
    requires Inv(s) && i in s.db.rows && j in s.db.rows && Covers(t, Apply(s, Swap(i, j)))
    ensures Shows(t, i, s, j) && Shows(t, j, s, i)
    ensures forall k :: k != i && k != j ==> SameView(s, t, k)
  {
    RowShows(t, i, s, j);
    RowShows(t, j, s, i);
    forall k | k != i && k != j ensures SameView(s, t, k) {
      RowShows(t, k, s, k);
    }
  }

  /** Readers of slot `k` get what readers of the k-th of the slots `ids` got in `s`. */
  ghost predicate ShowsNth(t: Snapshot, k: int, s: Snapshot, ids: seq<int>)
    requires 1 <= k <= |ids|
  {
    Shows(t, k, s, ids[k - 1])
  }

  /** Readers get the entries of the slots `ids` of `s` in slots 1, 2, .., and nothing behind. */
  ghost predicate ShowsInOrder(t: Snapshot, s: Snapshot, ids: seq<int>) {
    && (forall k :: 1 <= k <= |ids| ==> ShowsNth(t, k, s, ids))
    && (forall id :: id > |ids| ==> GetById(t, id).None? && GetFileBlob(t, id).None?)
  }

  /** Slot `k` of `t` holds the entry of slot `i` of `db`, but for the size column. */
  ghost predicate HoldsEntry(t: Db, k: int, db: Db, i: int) {
    IsUsed(t, k) && IsUsed(db, i) && t.rows[k].(size := 0) == db.rows[i].(size := 0)
  }

  ghost predicate HoldsNth(t: Db, k: int, db: Db, ids: seq<int>)
    requires 1 <= k <= |ids|
  {
    HoldsEntry(t, k, db, ids[k - 1])
  }

  ghost predicate HoldsInOrder(t: Db, db: Db, ids: seq<int>) {
    && (forall k :: 1 <= k <= |ids| ==> HoldsNth(t, k, db, ids))
    && (forall id :: id > |ids| ==> !IsUsed(t, id))
  }

  /** The files that rows of `t` refer to are those of `s`. */
  ghost predicate SameFiles(t: Snapshot, s: Snapshot) {
    forall p :: Refers(t.db, p) ==> p in t.disk && p in s.disk && t.disk[p] == s.disk[p]
  }

  lemma EntryShows(t: Snapshot, k: int, s: Snapshot, i: int)
    requires SameFiles(t, s) && HoldsEntry(t.db, k, s.db, i)
    ensures Shows(t, k, s, i)
  {
    var row, was := t.db.rows[k], s.db.rows[i];
    assert row.path == was.path && row.media == was.media && row.content == was.content;
    assert row.filename == was.filename && row.mime == was.mime;
    assert row.stored == was.stored && row.updated == was.updated;
    if row.path.Some? {
      assert Refers(t.db, row.path.value);
    }
  }

  lemma EntriesShowInOrder(t: Snapshot, s: Snapshot, ids: seq<int>)
    requires SameFiles(t, s) && HoldsInOrder(t.db, s.db, ids)
    ensures ShowsInOrder(t, s, ids)
  {
    hide SameFiles, HoldsEntry, Shows;
    forall k | 1 <= k <= |ids| ensures ShowsNth(t, k, s, ids) {
      assert HoldsNth(t.db, k, s.db, ids);
      EntryShows(t, k, s, ids[k - 1]);
    }
    forall id | id > |ids| ensures GetById(t, id).None? && GetFileBlob(t, id).None? {
      UnusedShowsNothing(t, id);
    }
  }

  lemma ResequencedSlots(db: Db) returns (origin: seq<int>)
    requires DomainOk(db)
    ensures AgeOrigin(db, origin) && HoldsInOrder(Resequenced(db), db, origin)
  {
    origin := ResequencePermutes(db);
    UsedOrigin(db, origin);
    hide Resequenced, AgeOrigin;
    forall k | 1 <= k <= |origin| ensures HoldsNth(Resequenced(db), k, db, origin) {
      assert Resequenced(db).rows[k] == db.rows[origin[k - 1]];
    }
  }

  // A resequence shows all entries from the oldest to the newest.
  lemma ResequenceMovesViews(s: Snapshot, t: Snapshot) returns (origin: seq<int>)
    requires Inv(s) && Covers(t, Apply(s, Resequence(s.db.max)))
    ensures AgeOrigin(s.db, origin) && ShowsInOrder(t, s, origin)
  {
    WholeTableScanned(s.db, s.db.max);
    ResequencedGood(s.db);
    origin := ResequencedSlots(s.db);
    assert t.db == Resequenced(s.db) && SameFiles(t, s);
    hide SameFiles, HoldsInOrder, ShowsInOrder;
    EntriesShowInOrder(t, s, origin);
  }

  // Growing the store, or shrinking it without force, changes nothing for readers.
  lemma ResizeKeepsViews(s: Snapshot, limit: int, force: bool, counted: bool, t: Snapshot, id: int)
    requires Inv(s) && (limit >= s.db.max || (!force && counted))
    requires Covers(t, Apply(s, Restart(limit, force, counted)))
    ensures SameView(s, t, id)
  {
    if limit >= 1 && limit >= s.db.max {
      EnsureSlotsRows(s.db.rows, 1, limit);
    }
    assert Apply(s, Restart(limit, force, counted)).disk == s.disk;
    RowShows(t, id, s, id);
  }

  // The forced shrink shows the newest entries that fit, from the oldest of them to the newest.
  lemma ForcedShrinkMovesViews(s: Snapshot, limit: int, t: Snapshot) returns (origin: seq<int>)
    requires Inv(s) && 1 <= limit < s.db.max && Accepts(s, Restart(limit, true, true))
    requires Covers(t, Apply(s, Restart(limit, true, true)))
    ensures AgeOrigin(s.db, origin)
    ensures ShowsInOrder(t, s, if |origin| > limit then origin[|origin| - limit..] else origin)
  {
    origin := ByAgeOrigin(NullsFirst, s.db);
    var newest := origin[DropCount(|origin|, limit)..];
    assert newest == if |origin| > limit then origin[|origin| - limit..] else origin;
    ShrunkFilesStay(s, limit, t);
    KeptOrigin(s.db, limit, origin, newest);
    hide SameFiles, HoldsInOrder, ShowsInOrder, ByAge, DropCount;
    EntriesShowInOrder(t, s, newest);
  }

  lemma ShrunkFilesStay(s: Snapshot, limit: int, t: Snapshot)
    requires Inv(s) && 1 <= limit < s.db.max && Accepts(s, Restart(limit, true, true))
    requires Covers(t, Apply(s, Restart(limit, true, true)))
    ensures SameFiles(t, s) && t.db == ForcedShrink(s.db, limit).db
  {
    ResizeGood(s.db, limit, true);
  }

  lemma KeptOrigin(db: Db, limit: int, origin: seq<int>, newest: seq<int>)
    requires GoodDb(db) && 1 <= limit && ForcedShrink(db, limit).Resized?
    requires OriginOf(db, origin) && AgeOrigin(db, origin)
    requires newest == origin[DropCount(|origin|, limit)..]
    ensures HoldsInOrder(ForcedShrink(db, limit).db, db, newest)
  {
    var kept := KeptRows(db, limit);
    UsedOrigin(db, origin);
    assert kept == Vals(ByAge(NullsFirst, db))[DropCount(|origin|, limit)..];
    assert forall p :: 0 <= p < |newest| ==> IsUsed(db, newest[p]) && kept[p] == db.rows[newest[p]];
    PackedHolds(ForcedShrink(db, limit).db, db, kept, newest);
  }

  lemma PackedHolds(t: Db, db: Db, kept: seq<Row>, newest: seq<int>)
    requires RowsOk(db) && |kept| == |newest| <= t.max && t.rows == Packed(Reload(kept), t.max)
    requires forall p :: 0 <= p < |newest| ==> IsUsed(db, newest[p]) && kept[p] == db.rows[newest[p]]
    ensures HoldsInOrder(t, db, newest)
  {
    hide RowOk, Reloaded;
    forall k | 1 <= k <= |newest| ensures HoldsNth(t, k, db, newest) {
      assert t.rows[k] == Reloaded(kept[k - 1]) && kept[k - 1] == db.rows[newest[k - 1]];
      GoodReloaded(db.rows[newest[k - 1]]);
    }
  }

  lemma GoodReloaded(row: Row)
    requires RowOk(row) && row.used
    ensures Reloaded(row).(size := 0) == row.(size := 0) && Reloaded(row).used
  {
  }
}
