/**
 The requests of entry_store, step by step on the durable store (sqlite/store/entry_store.cpp). Each is
 proved against `Apply`; see `Store.Outcome` for what that means when steps fail.
 */
module EntryStore {
  import opened Sorting
  import opened Rows
  import opened Compaction
  import opened CompactionLaws
  import opened StoreMachine
  import opened Backend

  // ----- Reading the cursor -----

  /** fetch_slot_state: fails when there is no store_state row. */
  method FetchState(b: Store) returns (ok: bool, next: int, max: int)
    modifies b`faulty
    ensures next == b.Visible().next && max == b.Visible().max
    ensures ok ==> max >= 1
    ensures old(b.faulty) ==> b.faulty
    ensures !b.faulty ==> (ok <==> max >= 1)
  {
    ok := b.Query();
    next, max := b.Visible().next, b.Visible().max;
    ok := ok && max >= 1;
  }

  method PreviousSlotId(b: Store) returns (id: Option<int>)
    modifies b`faulty
    ensures id.Some? ==> id == PreviousSlot(b.Visible())
    ensures old(b.faulty) ==> b.faulty
    ensures !b.faulty ==> id == PreviousSlot(b.Visible())
  {
    var ok, next, max := FetchState(b);
    id := if !ok || max < 1 then None else Some(if next == 1 then max else next - 1);
  }

  // ----- Files that no row refers to yet -----

  /** Write the new file of a request that has changed nothing so far. */
  method WriteNew(b: Store, id: int, data: string, stamp: int) returns (ok: bool, path: Path)
    requires b.Now() == b.before && b.OnTrack() && EntryFile(id, stamp) !in b.disk
    modifies b`disk, b`trail, b`tidy, b`faulty
    ensures path == EntryFile(id, stamp) && b.OnTrack()
    ensures ok ==> b.disk == b.before.disk[path := data] && b.tidy == old(b.tidy)
    ensures !ok ==> Covers(b.Now(), b.before) && (b.tidy ==> b.Now() == b.before)
    ensures b.faulty == (old(b.faulty) || !ok)
  {
    ok, path := b.WriteForSlot(id, data, stamp);
  }

  /** Remove it again when the request fails. */
  method DiscardNew(b: Store, path: Path)
    requires b.committed == b.before.db && b.OnTrack()
    requires path !in b.before.disk && path in b.disk && b.disk == b.before.disk[path := b.disk[path]]
    modifies b`disk, b`trail, b`tidy, b`faulty
    ensures b.OnTrack() && Covers(b.Now(), b.before) && (b.tidy ==> b.Now() == b.before)
    ensures old(b.faulty) ==> b.faulty
  {
    assert b.before.disk[path := b.disk[path]] - {path} == b.before.disk;
    b.RemoveIfAny(Some(path));
  }

  // ----- Inserting at the cursor -----

  /** The transaction both inserts run: overwrite the row at the cursor and advance the cursor. */
  method StoreAtCursor(b: Store, slot: int, row: Row) returns (ok: bool)
    requires b.pending.None? && b.committed == b.before.db && b.OnTrack()
    requires slot in b.committed.rows ==> b.goal.db == AdvanceNext(UpdateRow(b.committed, slot, row))
    requires Extends(b.disk, b.before.disk) && Extends(b.disk, b.goal.disk)
    modifies b`committed, b`pending, b`trail, b`faulty
    ensures b.pending.None? && b.OnTrack()
    ensures b.committed == if ok then b.goal.db else b.before.db
    ensures ok ==> slot in b.before.db.rows
    ensures old(b.faulty) ==> b.faulty
    ensures !b.faulty ==> (ok <==> slot in b.before.db.rows)
  {
    ok := b.Begin();
    if !ok { return; }
    ok := b.Query();
    if ok {
      var changed := slot in b.Visible().rows;
      ok := b.Execute(UpdateRow(b.Visible(), slot, row));
      ok := ok && changed;
    }
    if ok { ok := b.Execute(AdvanceNext(b.Visible())); }
    if ok { ok := b.Commit(); }
    if !ok {
      b.Rollback();
    }
  }

  /** What both inserts begin with: find the slot at the cursor and the file to be replaced there. */
  method LocateSlot(b: Store) returns (ok: bool, slot: int, oldPath: Option<Path>)
    modifies b`tidy, b`faulty
    ensures slot == b.Visible().next
    ensures ok ==> b.Visible().max >= 1
    ensures ok ==>
      || (oldPath == PathAt(b.Visible(), slot) && b.tidy == old(b.tidy))
      || (oldPath == None && !b.tidy && b.faulty)
    ensures !ok ==> b.tidy == old(b.tidy)
    ensures old(b.faulty) ==> b.faulty
    ensures !b.faulty ==> (ok <==> b.Visible().max >= 1)
  {
    slot, oldPath := b.Visible().next, None;
    ok := b.Query();
    if !ok { return; }
    var max;
    ok, slot, max := FetchState(b);
    if !ok { return; }
    oldPath := b.ReadFilePath(slot);
  }

  method InsertText(b: Store, content: string, now: int) returns (id: int)
    requires b.Valid()
    modifies b
    ensures b.Valid()
    ensures id == -1 || id == old(b.committed.next)
    ensures b.Outcome(old(b.Now()), Op.InsertText(content, now), id != -1)
  {
    assert -1 !in b.committed.rows;
    hide Inv, TextRow;
    ghost var op := Op.InsertText(content, now);
    SafeAround(b.Now(), op);
    b.Watch(Apply(b.Now(), op));
    var ok, slot, oldPath := LocateSlot(b);
    if !ok { return -1; }
    ok := StoreAtCursor(b, slot, TextRow(content, now, now));
    if !ok { return -1; }
    b.RemoveIfAny(oldPath);
    return slot;
  }

  method InsertFile(b: Store, filename: string, mime: string, data: string, stamp: int, now: int)
      returns (id: int)
    requires b.Valid() && Fresh(b.Now(), Op.InsertFile(filename, mime, data, stamp, now))
    modifies b
    ensures b.Valid()
    ensures id == -1 || id == old(b.committed.next)
    ensures b.Outcome(old(b.Now()), Op.InsertFile(filename, mime, data, stamp, now), id != -1)
  {
    assert -1 !in b.committed.rows;
    hide Inv, FileRow;
    ghost var op := Op.InsertFile(filename, mime, data, stamp, now);
    SafeAround(b.Now(), op);
    b.Watch(Apply(b.Now(), op));
    var ok, slot, oldPath := LocateSlot(b);
    if !ok { return -1; }
    var newPath;
    ok, newPath := WriteNew(b, slot, data, stamp);
    if !ok { return -1; }
    ok := StoreAtCursor(b, slot, FileRow(filename, mime, data, newPath, now, now));
    if !ok {
      DiscardNew(b, newPath);
      return -1;
    }
    b.RemoveIfAny(oldPath);
    return slot;
  }

  // ----- Deleting -----

  /** Prepare and run one UPDATE outside a transaction; the row is there. */
  method WriteRow(b: Store, id: int, row: Row) returns (ok: bool)
    requires b.pending.None? && b.committed == b.before.db && b.OnTrack()
    requires id in b.committed.rows && b.goal.db == UpdateRow(b.committed, id, row)
    requires Extends(b.disk, b.before.disk) && Extends(b.disk, b.goal.disk)
    modifies b`committed, b`trail, b`faulty
    ensures b.OnTrack()
    ensures b.committed == if ok then b.goal.db else b.before.db
    ensures b.faulty == (old(b.faulty) || !ok)
  {
    ok := b.Query();
    if !ok { return; }
    ok := b.ExecuteAlone(UpdateRow(b.Visible(), id, row));
  }

  method LogicalDelete(b: Store, id: int) returns (ok: bool)
    requires b.Valid()
    modifies b
    ensures b.Valid()
    ensures b.Outcome(old(b.Now()), Delete(id), ok)
    ensures !b.faulty ==> (ok <==> 1 <= id <= old(b.committed.max))
  {
    SafeAround(b.Now(), Delete(id));
    b.Watch(Apply(b.Now(), Delete(id)));
    ok := b.Query();
    if !ok { return; }
    var record, path;
    ghost var misread;
    ok, record, path, misread := b.LoadEntry(id, false);
    if !ok { return; }
    ok := WriteRow(b, id, EMPTY_ROW);
    if ok {
      b.RemoveIfAny(path);
    }
  }

  method LogicalDeleteLatestRecent(b: Store, maxAge: int, now: int) returns (ok: bool)
    requires b.Valid()
    modifies b
    ensures b.Valid()
    ensures b.Outcome(old(b.Now()), DeleteLatest(maxAge, now), ok)
  {
    SafeAround(b.Now(), DeleteLatest(maxAge, now));
    b.Watch(Apply(b.Now(), DeleteLatest(maxAge, now)));
    ok := b.Query();
    if !ok { return; }
    var target := PreviousSlotId(b);
    if target.None? { return false; }
    ok := b.Query();
    if !ok { return; }
    var canDelete := false;
    if target.value in b.Visible().rows {
      var row := b.Visible().rows[target.value];
      canDelete := row.used && row.stored.Some? && now - row.stored.value <= maxAge;
    }
    if !canDelete { return false; }
    // Nothing durable has changed so far, so the trail may start again here; so in the two patches.
    ok := LogicalDelete(b, target.value);
  }

  // ----- Updating in place -----

  method UpdateText(b: Store, id: int, content: string, now: int) returns (ok: bool)
    requires b.Valid()
    modifies b
    ensures b.Valid()
    ensures b.Outcome(old(b.Now()), Op.UpdateText(id, content, now), ok)
  {
    hide Inv, TextRow;
    ghost var op := Op.UpdateText(id, content, now);
    SafeAround(b.Now(), op);
    b.Watch(Apply(b.Now(), op));
    ok := b.Query();
    if !ok { return; }
    var current, oldPath;
    ghost var misread;
    ok, current, oldPath, misread := b.LoadEntry(id, true);
    if !ok { return; }
    ok := WriteRow(b, id, TextRow(content, 0, now).(stored := b.Visible().rows[id].stored));
    if ok {
      b.RemoveIfAny(oldPath);
    }
  }

  method UpdateFile(b: Store, id: int, filename: string, mime: string, data: string, stamp: int, now: int)
      returns (ok: bool)
    requires b.Valid() && Fresh(b.Now(), Op.UpdateFile(id, filename, mime, data, stamp, now))
    modifies b
    ensures b.Valid()
    ensures b.Outcome(old(b.Now()), Op.UpdateFile(id, filename, mime, data, stamp, now), ok)
  {
    hide Inv, FileRow;
    ghost var op := Op.UpdateFile(id, filename, mime, data, stamp, now);
    SafeAround(b.Now(), op);
    b.Watch(Apply(b.Now(), op));
    ok := b.Query();
    if !ok { return; }
    var current, oldPath, newPath;
    ghost var misread;
    ok, current, oldPath, misread := b.LoadEntry(id, true);
    if !ok { return; }
    ok, newPath := WriteNew(b, id, data, stamp);
    if !ok { return; }
    var stored := b.Visible().rows[id].stored;
    ok := WriteRow(b, id, FileRow(filename, mime, data, newPath, 0, now).(stored := stored));
    if !ok {
      DiscardNew(b, newPath);
      return;
    }
    b.RemoveIfAny(oldPath);
  }

  method PatchText(b: Store, id: int, content: Option<string>, now: int) returns (ok: bool)
    requires b.Valid()
    modifies b
    ensures b.Valid()
    ensures b.Outcome(old(b.Now()), Op.PatchText(id, content, now), ok)
  {
    hide Inv, TextRow;
    ghost var op := Op.PatchText(id, content, now);
    SafeAround(b.Now(), op);
    b.Watch(Apply(b.Now(), op));
    ok := b.Query();
    if !ok { return; }
    var current, path;
    ghost var misread;
    ok, current, path, misread := b.LoadEntry(id, true);
    if !ok || current.isFile || path.Some? { return false; }
    ok := UpdateText(b, id, content.GetOr(current.content), now);
  }

  method PatchFile(b: Store, id: int, filename: Option<string>, mime: Option<string>, data: Option<string>,
                   stamp: int, now: int)
      returns (ok: bool)
    requires b.Valid() && Fresh(b.Now(), Op.PatchFile(id, filename, mime, data, stamp, now))
    modifies b
    ensures b.Valid()
    ensures b.Outcome(old(b.Now()), Op.PatchFile(id, filename, mime, data, stamp, now), ok)
  {
    hide Inv, FileRow;
    ghost var op := Op.PatchFile(id, filename, mime, data, stamp, now);
    SafeAround(b.Now(), op);
    b.Watch(Apply(b.Now(), op));
    ok := b.Query();
    if !ok { return; }
    var current, path;
    ghost var misread;
    ok, current, path, misread := b.LoadEntry(id, true);
    if !ok || path.None? { return false; }
    var blob;
    if data.Some? {
      blob := data.value;
    } else {
      ok, blob := b.Read(path.value);
      if !ok { return; }
    }
    ok := UpdateFile(b, id, filename.GetOr(current.filename), mime.GetOr(current.mime), blob, stamp, now);
  }

  // ----- Swapping -----

  method SwapEntries(b: Store, id1: int, id2: int) returns (ok: bool)
    requires b.Valid()
    modifies b
    ensures b.Valid()
    ensures b.Outcome(old(b.Now()), Swap(id1, id2), ok)
  {
    SafeAround(b.Now(), Swap(id1, id2));
    b.Watch(Apply(b.Now(), Swap(id1, id2)));
    if id1 == id2 {
      assert SwapRows(b.committed, id1, id2).rows == b.committed.rows;
      return true;
    }
    ok := b.Query();
    if !ok { return; }
    ok := b.Begin();
    if !ok { return; }
    ok := b.Query();
    if !ok || id1 !in b.Visible().rows || id2 !in b.Visible().rows {
      b.Rollback();
      return false;
    }
    var first, second := b.Visible().rows[id1], b.Visible().rows[id2];
    ok := b.Execute(UpdateRow(b.Visible(), id1, second));
    if ok { ok := b.Execute(UpdateRow(b.Visible(), id2, first)); }
    if ok { ok := b.Commit(); }
    if !ok {
      b.Rollback();
    }
  }

  // ----- Resequencing -----

  /** Nothing durable has changed since the request began, and its aim is still open. */
  ghost predicate Untouched(b: Store)
    reads b`committed, b`disk, b`before, b`goal, b`trail
  {
    b.Now() == b.before && b.goal == b.before && b.OnTrack()
  }

  /** SELECT .. ORDER BY id ASC: a failing step looks like the end of the result. */
  method LoadAllStates(b: Store) returns (states: seq<Row>)
    requires DomainOk(b.Visible())
    modifies b`faulty
    ensures |states| <= b.Visible().max
    ensures forall i :: 0 <= i < |states| ==> states[i] == b.Visible().rows[i + 1]
    ensures old(b.faulty) ==> b.faulty
    ensures !b.faulty ==> |states| == b.Visible().max
  {
    states := [];
    var remaining := b.Visible().rows.Keys;
    while remaining != {}
      modifies b`faulty
      invariant |states| <= b.Visible().max
      invariant forall id :: id in remaining <==> |states| < id <= b.Visible().max
      invariant forall i :: 0 <= i < |states| ==> states[i] == b.Visible().rows[i + 1]
      invariant old(b.faulty) ==> b.faulty
      decreases remaining
    {
      var ok := b.Query();
      if !ok { return; }
      assert |states| + 1 in remaining by {
        var id :| id in remaining;
      }
      var least :| least in remaining && forall id :: id in remaining ==> least <= id;
      assert least == |states| + 1;
      states := states + [b.Visible().rows[least]];
      remaining := remaining - {least};
    }
    assert |states| == b.Visible().max by {
      assert b.Visible().max !in remaining;
    }
  }

  /** Collect the used states with their ids and sort them: what each of the first slots is to hold. */
  method Arrange(states: seq<Row>, ghost first: Db) returns (arranged: seq<Row>, count: nat)
    requires first.max == |states| && DomainOk(first)
    requires forall i :: 0 <= i < |states| ==> states[i] == first.rows[i + 1]
    ensures count == |ByAge(NullsAsZero, first)| <= |states| == |arranged|
    ensures forall i :: 0 <= i < |arranged| ==> arranged[i] == Resequenced(first).rows[i + 1]
  {
    var active: seq<Keyed<Row>> := [];
    for i := 0 to |states|
      invariant active == Active(NullsAsZero, first.rows, i)
    {
      if states[i].used {
        active := active + [Entry(NullsAsZero, i + 1, states[i])];
      } else {
        assert active + [] == active;
      }
    }
    active := Sort(active);
    ByAgeSound(NullsAsZero, first);
    arranged, count := seq(|states|, _ => EMPTY_ROW), |active|;
    for i := 0 to |active|
      invariant |arranged| == |states|
      invariant forall j :: 0 <= j < |arranged| ==> arranged[j] == if j < i then active[j].val else EMPTY_ROW
    {
      arranged := arranged[i := active[i].val];
    }
  }

  /** Write the arranged rows to slots 1, 2, .. */
  method WriteBack(b: Store, arranged: seq<Row>) returns (ok: bool)
    requires b.pending.Some? && |arranged| <= b.pending.value.max && Untouched(b)
    requires DomainOk(b.pending.value)
    modifies b`pending, b`trail, b`faulty
    ensures b.pending.Some? && Untouched(b)
    ensures ok ==>
      && b.pending.value.next == old(b.pending.value.next) && b.pending.value.max == old(b.pending.value.max)
      && (forall id :: id in b.pending.value.rows <==> id in old(b.pending.value.rows))
      && (forall id :: id in b.pending.value.rows ==>
          b.pending.value.rows[id] == if id <= |arranged| then arranged[id - 1] else old(b.pending.value.rows)[id])
    ensures b.faulty == (old(b.faulty) || !ok)
  {
    ghost var db := b.pending.value;
    ok := true;
    for i := 0 to |arranged|
      modifies b`pending, b`trail, b`faulty
      invariant b.pending.Some? && Untouched(b) && ok && b.faulty == old(b.faulty)
      invariant b.pending.value.next == db.next && b.pending.value.max == db.max
      invariant forall id :: id in b.pending.value.rows <==> id in db.rows
      invariant forall id :: id in db.rows ==>
        b.pending.value.rows[id] == if id <= i then arranged[id - 1] else db.rows[id]
    {
      ok := b.Execute(UpdateRow(b.pending.value, i + 1, arranged[i]));
      if !ok { return; }
    }
  }

  /** The records of slots 1..count, all of them used; none exactly if one of them cannot be read. */
  method LoadRecords(b: Store, count: nat) returns (records: Option<seq<KaringRecord>>, ghost misread: bool)
    requires forall id :: 1 <= id <= count ==> IsUsed(b.Visible(), id)
    modifies b`faulty
    ensures records.Some? ==> |records.value| == count
    ensures records.Some? ==> forall i :: 0 <= i < count ==>
      IsUsed(b.Visible(), i + 1) && records.value[i] == LoadedRecord(i + 1, b.Visible().rows[i + 1])
    ensures records.None? <==> misread
    ensures b.faulty == (old(b.faulty) || misread)
  {
    var rs := [];
    misread := false;
    for i := 0 to count
      modifies b`faulty
      invariant |rs| == i && !misread
      invariant forall j :: 0 <= j < i ==>
        IsUsed(b.Visible(), j + 1) && rs[j] == LoadedRecord(j + 1, b.Visible().rows[j + 1])
      invariant b.faulty == old(b.faulty)
    {
      assert IsUsed(b.Visible(), i + 1);
      var ok, record, path;
      ok, record, path, misread := b.LoadEntry(i + 1, true);
      if !ok { return None, misread; }
      rs := rs + [record];
    }
    records := Some(rs);
  }

  /** Everything between BEGIN and COMMIT. */
  method StageResequence(b: Store) returns (ok: bool, next: int, count: nat, ghost scanned: nat)
    requires b.pending == Some(b.committed) && Untouched(b) && GoodDb(b.committed)
    modifies b`pending, b`trail, b`faulty
    ensures b.pending.Some? && Untouched(b) && scanned <= b.committed.max
    ensures ok ==> b.pending.value == ResequencedPart(b.committed, scanned)
    ensures ok ==> next == b.pending.value.next
    ensures ok ==> forall id :: 1 <= id <= count ==> IsUsed(b.pending.value, id)
    ensures !ok || scanned < b.committed.max ==> b.faulty
    ensures old(b.faulty) ==> b.faulty
  {
    next, count, scanned := 1, 0, b.committed.max;
    ok := b.Query();
    if !ok { return; }
    var states := LoadAllStates(b);
    scanned := |states|;
    ghost var first := FirstSlots(b.committed, scanned);
    FirstSlotsGood(b.committed, scanned);
    var arranged;
    arranged, count := Arrange(states, first);
    next := if count >= |arranged| then 1 else count + 1;
    ok := WriteBack(b, arranged);
    if !ok { return; }
    ok := b.Execute(b.pending.value.(next := next));
    if !ok { return; }
    ok := b.Execute(b.pending.value);  // rebuilding the search index
    if !ok { return; }
    ByAgeSound(NullsAsZero, first);
    PartRows(b.committed, scanned, arranged, b.pending.value);
    PartUsed(b.committed, scanned);
  }

  method ResequenceTransaction(b: Store) returns (ok: bool, next: int, count: nat, ghost scanned: nat)
    requires b.Valid()
    modifies b
    ensures b.Valid()
    ensures b.Outcome(old(b.Now()), Resequence(scanned), ok)
    ensures scanned < old(b.committed.max) ==> b.faulty
    ensures ok ==> next == b.committed.next && forall id :: 1 <= id <= count ==> IsUsed(b.committed, id)
  {
    hide ResequencedPart;
    next, count, scanned := 1, 0, b.committed.max;
    b.Watch(b.Now());
    ok := b.Query();
    if ok { ok := b.Begin(); }
    if ok { ok, next, count, scanned := StageResequence(b); }
    SafeAround(b.Now(), Resequence(scanned));
    b.Aim(Apply(b.Now(), Resequence(scanned)));
    if ok { ok := b.Commit(); }
    if b.pending.Some? {
      b.Rollback();
    }
  }

  // `done` says that the transaction committed. The records are read after that, so a result of None
  // need not mean that nothing happened; but of the records only one that could not be read (`misread`),
  // never an empty slot, can cause it.
  method ResequenceEntries(b: Store)
      returns (result: Option<(seq<KaringRecord>, int)>, ghost done: bool, ghost scanned: nat, ghost misread: bool)
    requires b.Valid()
    modifies b
    ensures b.Valid()
    ensures b.Outcome(old(b.Now()), Resequence(scanned), done)
    ensures scanned < old(b.committed.max) ==> b.faulty
    ensures result.Some? ==> done && result.value.1 == b.committed.next
    ensures result.Some? ==> forall i :: 0 <= i < |result.value.0| ==>
      IsUsed(b.committed, i + 1) && result.value.0[i] == LoadedRecord(i + 1, b.committed.rows[i + 1])
    ensures result.None? <==> !done || misread
    ensures misread ==> done && b.faulty
  {
    result, misread := None, false;
    var ok, next, count;
    ok, next, count, scanned := ResequenceTransaction(b);
    done := ok;
    if !ok { return; }
    var records;
    records, misread := LoadRecords(b, count);
    if records.Some? {
      result := Some((records.value, next));
    }
  }

  lemma PartRows(db: Db, n: nat, arranged: seq<Row>, t: Db)
    requires DomainOk(db) && n == |arranged| <= db.max && t.max == db.max
    requires forall i :: 0 <= i < n ==> arranged[i] == Resequenced(FirstSlots(db, n)).rows[i + 1]
    requires t.next == Resequenced(FirstSlots(db, n)).next
    requires forall id :: id in t.rows <==> id in db.rows
    requires forall id :: id in t.rows ==> t.rows[id] == if id <= n then arranged[id - 1] else db.rows[id]
    ensures t == ResequencedPart(db, n)
  {
  }

  lemma PartUsed(db: Db, n: nat)
    requires DomainOk(db) && n <= db.max
    ensures forall id :: 1 <= id <= |ByAge(NullsAsZero, FirstSlots(db, n))| ==> IsUsed(ResequencedPart(db, n), id)
  {
    var first := FirstSlots(db, n);
    ByAgeRises(first);
    var rs := Vals(ByAge(NullsAsZero, first));
    forall id | 1 <= id <= |rs| ensures IsUsed(ResequencedPart(db, n), id) {
      assert rs[id - 1].used && Resequenced(first).rows[id] == rs[id - 1];
    }
  }
}
