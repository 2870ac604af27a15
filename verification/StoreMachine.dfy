/**
 The store as a state machine: the durable state is the committed database and the upload directory,
 and each request is an operation on it. `Apply` is what a request that succeeds does. `Next` adds
 everything a failing statement, a failing file removal or a crash between two steps can leave behind.
 */
module StoreMachine {
  import opened Rows
  import opened Compaction
  import opened CompactionLaws

  type Disk = map<Path, string>

  datatype Snapshot = Snapshot(db: Db, disk: Disk)

  const BLANK := Snapshot(NO_STORE, map[])

  // `now` is the reading of now_epoch, `stamp` that of steady_clock in write_for_slot.
  datatype Op =
    | InsertText(content: string, now: int)
    | InsertFile(filename: string, mime: string, data: string, stamp: int, now: int)
    | UpdateText(id: int, content: string, now: int)
    | UpdateFile(id: int, filename: string, mime: string, data: string, stamp: int, now: int)
    | PatchText(id: int, newContent: Option<string>, now: int)
    | PatchFile(id: int, newFilename: Option<string>, newMime: Option<string>, newData: Option<string>,
                stamp: int, now: int)
    | Delete(id: int)
    | DeleteLatest(maxAge: int, now: int)
    | Swap(id1: int, id2: int)
    | Resequence(scanned: nat)  // the rows the scan of the table delivered, all unless a read failed
    | Restart(limit: int, force: bool, counted: bool)  // whether used rows above the limit could be counted

  // ----- What a successful request does -----

  function Without(disk: Disk, p: Option<Path>): Disk {
    if p.Some? then disk - {p.value} else disk
  }

  function WithoutAll(disk: Disk, ps: seq<Path>): Disk {
    disk - set p | p in ps
  }

  /** Row `id` becomes `row`; `disk` already holds the new file, and the old one is removed. */
  function PutRow(s: Snapshot, id: int, row: Row, disk: Disk): Snapshot {
    Snapshot(UpdateRow(s.db, id, row), Without(disk, PathAt(s.db, id)))
  }

  function Advanced(s: Snapshot): Snapshot {
    s.(db := AdvanceNext(s.db))
  }

  predicate DirectTextAt(db: Db, id: int) {
    IsUsed(db, id) && db.rows[id].media in {None, Some(TextMedia)} && db.rows[id].path.None?
  }

  /** The bytes a file patch stores: the new ones, or else those of the present file. */
  function PatchBlob(s: Snapshot, id: int, newData: Option<string>): Option<string> {
    if !(IsUsed(s.db, id) && s.db.rows[id].path.Some?) then None
    else if newData.Some? then newData
    else if s.db.rows[id].path.value in s.disk then Some(s.disk[s.db.rows[id].path.value])
    else None
  }

  predicate LatestDeletable(db: Db, maxAge: int, now: int) {
    var target := PreviousSlot(db);
    && target.Some? && IsUsed(db, target.value)
    && db.rows[target.value].stored.Some?
    && now - db.rows[target.value].stored.value <= maxAge
  }

  function ApplyUpdateText(s: Snapshot, id: int, content: string, now: int): Snapshot {
    if IsUsed(s.db, id)
    then PutRow(s, id, TextRow(content, 0, now).(stored := s.db.rows[id].stored), s.disk)
    else s
  }

  function ApplyUpdateFile(s: Snapshot, id: int, filename: string, mime: string, data: string,
                           stamp: int, now: int): Snapshot
  {
    var p := EntryFile(id, stamp);
    if IsUsed(s.db, id)
    then PutRow(s, id, FileRow(filename, mime, data, p, 0, now).(stored := s.db.rows[id].stored), s.disk[p := data])
    else s
  }

  function ApplyDelete(s: Snapshot, id: int): Snapshot {
    PutRow(s, id, EMPTY_ROW, s.disk)
  }

  function AfterResize(s: Snapshot, r: Resizing): Snapshot {
    match r
    case Refused => s
    case Resized(db, removed) => Snapshot(db, WithoutAll(s.disk, removed))
  }

  function Apply(s: Snapshot, op: Op): Snapshot {
    match op
    case InsertText(content, now) =>
      if s.db.next in s.db.rows
      then Advanced(PutRow(s, s.db.next, TextRow(content, now, now), s.disk))
      else s
    case InsertFile(filename, mime, data, stamp, now) =>
      var p := EntryFile(s.db.next, stamp);
      if s.db.next in s.db.rows
      then Advanced(PutRow(s, s.db.next, FileRow(filename, mime, data, p, now, now), s.disk[p := data]))
      else s
    case UpdateText(id, content, now) => ApplyUpdateText(s, id, content, now)
    case UpdateFile(id, filename, mime, data, stamp, now) =>
      ApplyUpdateFile(s, id, filename, mime, data, stamp, now)
    case PatchText(id, newContent, now) =>
      if DirectTextAt(s.db, id)
      then ApplyUpdateText(s, id, newContent.GetOr(s.db.rows[id].content.GetOr("")), now)
      else s
    case PatchFile(id, newFilename, newMime, newData, stamp, now) =>
      var blob := PatchBlob(s, id, newData);
      if blob.Some?
      then ApplyUpdateFile(s, id, newFilename.GetOr(s.db.rows[id].filename.GetOr("")),
                           newMime.GetOr(s.db.rows[id].mime.GetOr("")), blob.value, stamp, now)
      else s
    case Delete(id) => ApplyDelete(s, id)
    case DeleteLatest(maxAge, now) =>
      if LatestDeletable(s.db, maxAge, now) then ApplyDelete(s, PreviousSlot(s.db).value) else s
    case Swap(i, j) => s.(db := SwapRows(s.db, i, j))
    case Resequence(scanned) => s.(db := ResequencedPart(s.db, scanned))
    case Restart(limit, force, counted) => AfterResize(s, ResizeIf(s.db, limit, force, counted))
  }

  /** The requests that report success when nothing fails on the way; all others change nothing. */
  predicate Accepts(s: Snapshot, op: Op) {
    match op
    case InsertText(_, _) => s.db.next in s.db.rows
    case InsertFile(_, _, _, _, _) => s.db.next in s.db.rows
    case UpdateText(id, _, _) => IsUsed(s.db, id)
    case UpdateFile(id, _, _, _, _, _) => IsUsed(s.db, id)
    case PatchText(id, _, _) => DirectTextAt(s.db, id)
    case PatchFile(id, _, _, newData, _, _) => PatchBlob(s, id, newData).Some?
    case Delete(id) => id in s.db.rows
    case DeleteLatest(maxAge, now) => LatestDeletable(s.db, maxAge, now)
    case Swap(i, j) => i == j || (i in s.db.rows && j in s.db.rows)
    case Resequence(_) => true
    case Restart(limit, force, counted) => ResizeIf(s.db, limit, force, counted).Resized?
  }

  lemma RefusedChangesNothing(s: Snapshot, op: Op)
    requires !Accepts(s, op)
    ensures Apply(s, op) == s
  {
  }

  // ----- Failures and crashes -----

  ghost predicate Extends(more: Disk, disk: Disk) {
    forall p :: p in disk ==> p in more && more[p] == disk[p]
  }

  /** The database is `goal`'s and every file `goal` has is there; other files may be left over. */
  ghost predicate Covers(t: Snapshot, goal: Snapshot) {
    t.db == goal.db && Extends(t.disk, goal.disk)
  }

  // Wherever a request fails or the process dies, the store is found as before or as after, with at
  // most some unreferenced files too many.
  ghost predicate Next(s: Snapshot, op: Op, t: Snapshot) {
    Between(t, s, Apply(s, op))
  }

  /** A durable state whose database is that of `before` or `goal`, with no file of it missing. */
  ghost predicate Between(t: Snapshot, before: Snapshot, goal: Snapshot) {
    Covers(t, before) || Covers(t, goal)
  }

  // ----- The invariant -----

  ghost predicate Inv(s: Snapshot) {
    GoodDb(s.db) && forall p :: Refers(s.db, p) ==> p in s.disk
  }

  ghost predicate NoOrphans(s: Snapshot) {
    forall p :: p in s.disk ==> Refers(s.db, p)
  }

  function NewPath(s: Snapshot, op: Op): Option<Path> {
    match op
    case InsertFile(_, _, _, stamp, _) => Some(EntryFile(s.db.next, stamp))
    case UpdateFile(id, _, _, _, stamp, _) => Some(EntryFile(id, stamp))
    case PatchFile(id, _, _, _, stamp, _) => Some(EntryFile(id, stamp))
    case _ => None
  }

  /** write_for_slot builds a path that does not exist yet. */
  ghost predicate Fresh(s: Snapshot, op: Op) {
    NewPath(s, op).Some? ==> NewPath(s, op).value !in s.disk
  }

  lemma PutRefers(db: Db, id: int, row: Row, p: Path)
    requires id in db.rows && DistinctPaths(db)
    ensures Refers(UpdateRow(db, id, row), p) <==>
      row.path == Some(p) || (Refers(db, p) && db.rows[id].path != Some(p))
  {
    var after := UpdateRow(db, id, row);
    if row.path == Some(p) {
      assert after.rows[id].path == Some(p);
    }
    if j :| j in db.rows && j != id && db.rows[j].path == Some(p) {
      assert after.rows[j].path == Some(p);
    }
  }

  lemma PutGood(s: Snapshot, id: int, row: Row, disk: Disk)
    requires Inv(s) && id in s.db.rows && RowOk(row)
    requires if row.path.Some?
             then row.path.value !in s.disk && disk.Keys == s.disk.Keys + {row.path.value}
             else disk == s.disk
    ensures Inv(PutRow(s, id, row, disk))
    ensures NoOrphans(s) ==> NoOrphans(PutRow(s, id, row, disk))
  {
    var t := PutRow(s, id, row, disk);
    if row.path.Some? {
      assert !Refers(s.db, row.path.value);
      assert forall j :: j in s.db.rows ==> s.db.rows[j].path != row.path;
    }
    forall p
      ensures Refers(t.db, p) ==> p in t.disk
      ensures NoOrphans(s) && p in t.disk ==> Refers(t.db, p)
    {
      PutRefers(s.db, id, row, p);
      assert s.db.rows[id].path == Some(p) ==> Refers(s.db, p);
    }
  }

  lemma SwapGood(db: Db, i: int, j: int)
    requires GoodDb(db)
    ensures GoodDb(SwapRows(db, i, j))
    ensures forall p :: Refers(SwapRows(db, i, j), p) <==> Refers(db, p)
  {
    var t := SwapRows(db, i, j);
    if i in db.rows && j in db.rows {
      forall p ensures Refers(t, p) <==> Refers(db, p) {
        if k :| k in db.rows && db.rows[k].path == Some(p) {
          assert t.rows[if k == i then j else if k == j then i else k].path == Some(p);
        }
      }
    }
  }

  /** The request is no restart that drops rows with files because it could not count them. */
  ghost predicate LeavesNoFile(s: Snapshot, op: Op) {
    (op.Restart? && !op.counted && 1 <= op.limit < s.db.max && Accepts(s, op)) ==>
      DropsNoFile(s.db, op.limit, op.force)
  }

  lemma BlindRestartOrphansExactly(s: Snapshot, limit: int, force: bool)
    requires Inv(s) && NoOrphans(s) && 1 <= limit < s.db.max && ResizeBlind(s.db, limit, force).Resized?
    ensures NoOrphans(Apply(s, Restart(limit, force, false))) <==> DropsNoFile(s.db, limit, force)
  {
    BlindResizeForgetsExactly(s.db, limit, force);
    assert Apply(s, Restart(limit, force, false)).disk == s.disk;
    assert forall p :: p in s.disk <==> Refers(s.db, p);
  }

  // The plain shrink that cannot count the rows above its limit drops an upload and leaves its file.
  lemma BlindRestartLeavesFile(s: Snapshot)
    requires s == Snapshot(Db(map[1 := EMPTY_ROW, 2 := FileRow("f", "", "x", EntryFile(2, 0), 0, 0)], 1, 2),
                           map[EntryFile(2, 0) := "x"])
    ensures Inv(s) && NoOrphans(s) && !NoOrphans(Apply(s, Restart(1, false, false)))
  {
    assert s.db.rows[2].path == Some(EntryFile(2, 0));
    assert Refers(s.db, EntryFile(2, 0));
    BlindRestartOrphansExactly(s, 1, false);
  }

  // Every operation keeps: slot ids exactly 1..max and the cursor among them, the row shapes, no file
  // shared by two rows, every referenced file on disk. And if there was no other file on disk, there is
  // none after it exactly when `LeavesNoFile` holds.
  lemma ApplyKeepsInv(s: Snapshot, op: Op)
    requires Inv(s) && Fresh(s, op)
    ensures Inv(Apply(s, op))
    ensures NoOrphans(s) ==> (NoOrphans(Apply(s, op)) <==> LeavesNoFile(s, op))
  {
    match op
    case InsertText(content, now) =>
      if s.db.next in s.db.rows {
        PutGood(s, s.db.next, TextRow(content, now, now), s.disk);
        SameRows(PutRow(s, s.db.next, TextRow(content, now, now), s.disk));
      }
    case InsertFile(filename, mime, data, stamp, now) =>
      var p := EntryFile(s.db.next, stamp);
      if s.db.next in s.db.rows {
        PutGood(s, s.db.next, FileRow(filename, mime, data, p, now, now), s.disk[p := data]);
        SameRows(PutRow(s, s.db.next, FileRow(filename, mime, data, p, now, now), s.disk[p := data]));
      }
    case UpdateText(id, content, now) => UpdateTextGood(s, id, content, now);
    case UpdateFile(id, filename, mime, data, stamp, now) =>
      UpdateFileGood(s, id, filename, mime, data, stamp, now);
    case PatchText(id, newContent, now) =>
      if DirectTextAt(s.db, id) {
        UpdateTextGood(s, id, newContent.GetOr(s.db.rows[id].content.GetOr("")), now);
      }
    case PatchFile(id, newFilename, newMime, newData, stamp, now) =>
      var blob := PatchBlob(s, id, newData);
      if blob.Some? {
        UpdateFileGood(s, id, newFilename.GetOr(s.db.rows[id].filename.GetOr("")),
                       newMime.GetOr(s.db.rows[id].mime.GetOr("")), blob.value, stamp, now);
      }
    case Delete(id) => DeleteGood(s, id);
    case DeleteLatest(maxAge, now) =>
      if LatestDeletable(s.db, maxAge, now) {
        DeleteGood(s, PreviousSlot(s.db).value);
      }
    case Swap(i, j) => SwapGood(s.db, i, j);
    case Resequence(scanned) => ResequencedPartGood(s.db, scanned);
    case Restart(limit, force, counted) => RestartGood(s, limit, force, counted);
  }

  lemma RestartGood(s: Snapshot, limit: int, force: bool, counted: bool)
    requires Inv(s)
    ensures var op := Restart(limit, force, counted);
      Inv(Apply(s, op)) && (NoOrphans(s) ==> (NoOrphans(Apply(s, op)) <==> LeavesNoFile(s, op)))
  {
    if ResizeIf(s.db, limit, force, counted).Resized? {
      if counted || limit >= s.db.max {
        ResizeGood(s.db, limit, force);
      } else {
        ResizeBlindGood(s.db, limit, force);
        if NoOrphans(s) {
          BlindRestartOrphansExactly(s, limit, force);
        }
      }
    }
  }

  lemma SameRows(s: Snapshot)
    requires Inv(s) && s.db.max > 0
    ensures Inv(Advanced(s))
    ensures NoOrphans(s) ==> NoOrphans(Advanced(s))
  {
  }

  lemma UpdateTextGood(s: Snapshot, id: int, content: string, now: int)
    requires Inv(s)
    ensures Inv(ApplyUpdateText(s, id, content, now))
    ensures NoOrphans(s) ==> NoOrphans(ApplyUpdateText(s, id, content, now))
  {
    if IsUsed(s.db, id) {
      PutGood(s, id, TextRow(content, 0, now).(stored := s.db.rows[id].stored), s.disk);
    }
  }

  lemma UpdateFileGood(s: Snapshot, id: int, filename: string, mime: string, data: string, stamp: int, now: int)
    requires Inv(s) && EntryFile(id, stamp) !in s.disk
    ensures Inv(ApplyUpdateFile(s, id, filename, mime, data, stamp, now))
    ensures NoOrphans(s) ==> NoOrphans(ApplyUpdateFile(s, id, filename, mime, data, stamp, now))
  {
    var p := EntryFile(id, stamp);
    if IsUsed(s.db, id) {
      PutGood(s, id, FileRow(filename, mime, data, p, 0, now).(stored := s.db.rows[id].stored), s.disk[p := data]);
    }
  }

  lemma DeleteGood(s: Snapshot, id: int)
    requires Inv(s)
    ensures Inv(ApplyDelete(s, id))
    ensures NoOrphans(s) ==> NoOrphans(ApplyDelete(s, id))
  {
    if id in s.db.rows {
      PutGood(s, id, EMPTY_ROW, s.disk);
    }
  }

  lemma PutNeedsFreshPath(s: Snapshot, id: int, row: Row, p: Path, data: string)
    requires Inv(s) && id in s.db.rows && RowOk(row) && row.path == Some(p)
    ensures Inv(PutRow(s, id, row, s.disk[p := data])) <==> !Refers(s.db, p)
  {
    var t := PutRow(s, id, row, s.disk[p := data]);
    assert t.db.rows[id].path == Some(p);
    if Refers(s.db, p) {
      var j :| j in s.db.rows && s.db.rows[j].path == Some(p);
      if j == id {
        assert Refers(t.db, p) && p !in t.disk;
      } else {
        assert t.db.rows[j].path == Some(p);
      }
    } else {
      var bare := Snapshot(s.db, s.disk - {p});
      PutGood(bare, id, row, bare.disk[p := data]);
      assert bare.disk[p := data] == s.disk[p := data];
    }
  }

  // There is always a row at the cursor: an insert is refused only where there is no store.
  lemma InsertsAccepted(s: Snapshot, op: Op)
    requires Inv(s) && (op.InsertText? || op.InsertFile?)
    ensures Accepts(s, op) <==> s.db.max > 0
  {
  }

  // How much freshness the invariant needs: a request that writes a file keeps it exactly when no row
  // refers to the path that write_for_slot builds. A reused path is either removed as the slot's old
  // file or shared.
  lemma UploadNeedsFreshPath(s: Snapshot, op: Op)
    requires Inv(s) && NewPath(s, op).Some? && Accepts(s, op)
    ensures Inv(Apply(s, op)) <==> !Refers(s.db, NewPath(s, op).value)
  {
    var p := NewPath(s, op).value;
    match op
    case InsertFile(filename, mime, data, stamp, now) =>
      var row := FileRow(filename, mime, data, p, now, now);
      PutNeedsFreshPath(s, s.db.next, row, p, data);
      AdvanceInv(PutRow(s, s.db.next, row, s.disk[p := data]));
    case UpdateFile(id, filename, mime, data, stamp, now) =>
      PutNeedsFreshPath(s, id, FileRow(filename, mime, data, p, 0, now).(stored := s.db.rows[id].stored), p, data);
    case PatchFile(id, newFilename, newMime, newData, stamp, now) =>
      var row := FileRow(newFilename.GetOr(s.db.rows[id].filename.GetOr("")),
                         newMime.GetOr(s.db.rows[id].mime.GetOr("")), PatchBlob(s, id, newData).value, p, 0, now);
      PutNeedsFreshPath(s, id, row.(stored := s.db.rows[id].stored), p, PatchBlob(s, id, newData).value);
  }

  lemma AdvanceInv(s: Snapshot)
    requires 1 <= s.db.next <= s.db.max
    ensures Inv(Advanced(s)) <==> Inv(s)
  {
  }

  // ----- Runs -----

  lemma NextKeepsInv(s: Snapshot, op: Op, t: Snapshot)
    requires Inv(s) && Fresh(s, op) && Next(s, op, t)
    ensures Inv(t)
  {
    ApplyKeepsInv(s, op);
  }

  /** Each state follows from the one before by one request, complete, failed or cut short. */
  ghost predicate Run(states: seq<Snapshot>, ops: seq<Op>) {
    && |states| == |ops| + 1
    && forall k :: 0 <= k < |ops| ==> Fresh(states[k], ops[k]) && Next(states[k], ops[k], states[k + 1])
  }

  lemma {:induction false} RunKeepsInv(states: seq<Snapshot>, ops: seq<Op>, k: nat)
    requires Run(states, ops) && k < |states| && Inv(states[0])
    ensures Inv(states[k])
  {
    if k > 0 {
      RunKeepsInv(states, ops, k - 1);
      NextKeepsInv(states[k - 1], ops[k - 1], states[k]);
    }
  }

  // From an empty directory on, whatever fails or crashes: slots are exactly 1..max with the cursor
  // among them, and no committed row ever refers to a file that is missing or shared.
  lemma ReachableStatesAreGood(states: seq<Snapshot>, ops: seq<Op>, k: nat)
    requires Run(states, ops) && k < |states| && states[0] == BLANK
    ensures Inv(states[k])
  {
    RunKeepsInv(states, ops, k);
  }

  /** The request fails without effect or has its full effect, and leaves no file of a row it drops. */
  ghost predicate TidyStep(s: Snapshot, op: Op, t: Snapshot) {
    t == s || (t == Apply(s, op) && LeavesNoFile(s, op))
  }

  // And as long as every clean-up succeeds, whatever else fails, no other file is ever on disk.
  lemma {:induction false} TidyRunHasNoOrphans(states: seq<Snapshot>, ops: seq<Op>, k: nat)
    requires Run(states, ops) && k < |states| && states[0] == BLANK
    requires forall i :: 0 <= i < k ==> TidyStep(states[i], ops[i], states[i + 1])
    ensures forall p :: p in states[k].disk <==> Refers(states[k].db, p)
  {
    ReachableStatesAreGood(states, ops, k);
    hide Apply, LeavesNoFile, GoodDb;
    if k > 0 {
      TidyRunHasNoOrphans(states, ops, k - 1);
      ReachableStatesAreGood(states, ops, k - 1);
      assert Fresh(states[k - 1], ops[k - 1]) && TidyStep(states[k - 1], ops[k - 1], states[k - 1 + 1]);
      ApplyKeepsInv(states[k - 1], ops[k - 1]);
    }
  }
}
