/**
 Opening the store with a given number of slots (sqlite/db/db_init.cpp, db_init_common.cpp,
 db_resize.cpp): one transaction that creates, grows or shrinks the table, and only after its commit the
 removal of the files of dropped rows.
 */
module SchemaInit {
  import opened Sorting
  import opened Rows
  import opened Compaction
  import opened StoreMachine
  import opened Backend
  import opened EntryStore

  const TWO_64: int := 0x1_0000_0000_0000_0000

  type CInt = x: int | -0x8000_0000 <= x < 0x8000_0000

  /** static_cast<size_t> of an int */
  function AsSizeT(x: CInt): nat {
    if x < 0 then x + TWO_64 else x
  }

  datatype InitResult = InitResult(ok: bool, created: bool, resized: bool, previousMax: int, currentMax: int)

  /** Inside the transaction, with nothing durable changed yet. */
  ghost predicate Staging(b: Store)
    reads b`committed, b`pending, b`disk, b`before, b`goal, b`trail
  {
    b.pending.Some? && Untouched(b)
  }

  // ----- db_init_common.cpp -----

  method EnsureSlotRows(b: Store, lo: int, hi: int) returns (ok: bool)
    requires Staging(b)
    modifies b`pending, b`trail, b`faulty
    ensures Staging(b)
    ensures ok ==>
      b.pending.value == old(b.pending.value).(rows := EnsureSlots(old(b.pending.value.rows), lo, hi))
    ensures b.faulty == (old(b.faulty) || !ok)
  {
    ok := true;
    if lo > hi { return; }
    ghost var db := b.pending.value;
    ok := b.Query();
    var id := lo;
    while ok && id <= hi
      modifies b`pending, b`trail, b`faulty
      invariant Staging(b) && b.faulty == (old(b.faulty) || !ok)
      invariant ok ==> b.pending.value.next == db.next && b.pending.value.max == db.max
      invariant ok ==> EnsureSlots(b.pending.value.rows, id, hi) == EnsureSlots(db.rows, lo, hi)
      decreases hi - id, ok
    {
      var rows := b.pending.value.rows;
      ok := b.Execute(b.pending.value.(rows := if id in rows then rows else rows[id := EMPTY_ROW]));
      if ok {
        id := id + 1;
      }
    }
  }

  /** Reads max_items, or creates the store_state row; previous is 0 then. */
  method EnsureStoreState(b: Store, limit: int) returns (ok: bool, previous: int)
    requires Staging(b) && b.pending.value == b.committed && GoodDb(b.committed)
    modifies b`pending, b`trail, b`faulty
    ensures Staging(b)
    ensures ok ==> previous == b.committed.max
    ensures ok && previous == 0 ==> limit >= 1 && b.pending.value == Db(b.committed.rows, 1, limit)
    ensures ok && previous != 0 ==> b.pending.value == b.committed
    ensures old(b.faulty) ==> b.faulty
    ensures !b.faulty ==> (ok <==> b.committed.max != 0 || limit >= 1)
  {
    previous := 0;
    ok := b.Query();
    if !ok { return; }
    var stepped := b.Query();
    if stepped && b.pending.value.max != 0 {
      return true, b.pending.value.max;
    }
    // The insert fails if the row exists after all, or violates CHECK (max_items >= 1).
    if b.pending.value.max != 0 || limit < 1 {
      return false, 0;
    }
    ok := b.Execute(Db(b.pending.value.rows, 1, limit));
  }

  method UpdateStoreState(b: Store, limit: int, resetNext: bool) returns (ok: bool)
    requires Staging(b)
    modifies b`pending, b`trail, b`faulty
    ensures Staging(b)
    ensures ok ==> limit >= 1
    ensures ok ==> b.pending.value.rows == old(b.pending.value.rows) && b.pending.value.max == limit
    ensures ok ==> b.pending.value.next == if resetNext then 1 else ClampNext(old(b.pending.value.next), limit)
    ensures old(b.faulty) ==> b.faulty
    ensures !b.faulty ==> (ok <==> limit >= 1)
  {
    ok := b.Query();
    if !ok { return; }
    if limit < 1 { return false; }  // CHECK (max_items >= 1)
    var db := b.pending.value;
    ok := b.Execute(Db(db.rows, if resetNext then 1 else if db.next > limit then 1 else db.next, limit));
  }

  // ----- db_resize.cpp -----

  /** The used rows, ordered by stored_at and id in SQL, with NULL times read as 0 and 32-bit sizes. */
  method LoadActiveEntries(b: Store) returns (ok: bool, entries: seq<Row>)
    modifies b`faulty
    ensures ok ==> entries == Reload(Vals(ByAge(NullsFirst, b.Visible())))
    ensures b.faulty == (old(b.faulty) || !ok)
  {
    entries := [];
    ok := b.Query();
    if !ok { return; }
    var result := Vals(ByAge(NullsFirst, b.Visible()));
    for i := 0 to |result|
      modifies b`faulty
      invariant entries == Reload(result)[..i] && ok && b.faulty == old(b.faulty)
    {
      ok := b.Query();
      if !ok { return; }
      entries := entries + [Reloaded(result[i])];
    }
    assert Reload(result)[..|result|] == Reload(result);
  }

  predicate SizesValid(entries: seq<Row>, n: int) {
    forall i :: 0 <= i < |entries| && i < n ==> entries[i].size >= 0
  }

  /** Refill slots 1, 2, .. of a table of `n` empty slots; entries beyond the last slot vanish. */
  method RepopulateActiveEntries(b: Store, entries: seq<Row>, n: int) returns (ok: bool)
    requires Staging(b) && b.pending.value.rows == Packed([], n)
    modifies b`pending, b`trail, b`faulty
    ensures Staging(b)
    ensures ok ==> SizesValid(entries, n)
    ensures ok ==> b.pending.value == old(b.pending.value).(rows := Packed(entries, n))
    ensures old(b.faulty) ==> b.faulty
    ensures !b.faulty ==> (ok <==> SizesValid(entries, n))
  {
    ghost var db := b.pending.value;
    ok := b.Query();
    if !ok { return; }
    for i := 0 to |entries|
      modifies b`pending, b`trail, b`faulty
      invariant Staging(b) && b.faulty == old(b.faulty)
      invariant SizesValid(entries[..i], n)
      invariant b.pending.value == db.(rows := Packed(entries[..i], n))
    {
      if i + 1 in b.pending.value.rows && entries[i].size < 0 {  // CHECK (size_bytes >= 0)
        return false;
      }
      ok := b.Execute(UpdateRow(b.pending.value, i + 1, entries[i]));
      if !ok { return; }
      assert Packed(entries[..i + 1], n) == UpdateRow(db.(rows := Packed(entries[..i], n)), i + 1, entries[i]).rows;
    }
    assert entries[..|entries|] == entries;
  }

  /** DELETE FROM entries, then new empty slots, then the given entries. */
  method RefillSlots(b: Store, entries: seq<Row>, n: int) returns (ok: bool)
    requires Staging(b)
    modifies b`pending, b`trail, b`faulty
    ensures Staging(b)
    ensures ok ==> SizesValid(entries, n)
    ensures ok ==> b.pending.value == old(b.pending.value).(rows := Packed(entries, n))
    ensures old(b.faulty) ==> b.faulty
    ensures !b.faulty ==> (ok <==> SizesValid(entries, n))
  {
    ok := b.Execute(b.pending.value.(rows := map[]));
    if !ok { return; }
    ok := EnsureSlotRows(b, 1, n);
    if !ok { return; }
    EnsureSlotsRows(map[], 1, n);
    assert EnsureSlots(map[], 1, n) == Packed([], n);
    ok := RepopulateActiveEntries(b, entries, n);
  }

  lemma {:induction false} FilesOfAppend(rs: seq<Row>, r: Row)
    ensures FilesOf(rs + [r]) == FilesOf(rs) + if r.path.Some? then [r.path.value] else []
  {
    if rs == [] {
      assert [] + [r] == [r];
    } else {
      FilesOfAppend(rs[1..], r);
      assert (rs + [r])[1..] == rs[1..] + [r];
    }
  }

  lemma {:induction false} FilesOfReload(rs: seq<Row>)
    ensures FilesOf(Reload(rs)) == FilesOf(rs)
  {
    if rs != [] {
      FilesOfReload(rs[1..]);
      assert Reload(rs)[1..] == Reload(rs[1..]);
    }
  }

  /** The files of the entries before `n`, in order. */
  method FilesToRemove(entries: seq<Row>, n: nat) returns (files: seq<Path>)
    requires n <= |entries|
    ensures files == FilesOf(entries[..n])
  {
    files := [];
    for i := 0 to n
      invariant files == FilesOf(entries[..i])
    {
      FilesOfAppend(entries[..i], entries[i]);
      assert entries[..i + 1] == entries[..i] + [entries[i]];
      if entries[i].path.Some? {
        files := files + [entries[i].path.value];
      }
    }
  }

  /** The newest entries that fit, and the files of the others. */
  method KeepNewest(entries: seq<Row>, limit: CInt) returns (kept: seq<Row>, files: seq<Path>)
    ensures 1 <= limit ==>
      var drop := DropCount(|entries|, limit); kept == entries[drop..] && files == FilesOf(entries[..drop])
  {
    var keepStart := 0;
    files := [];
    if |entries| > AsSizeT(limit) {
      keepStart := |entries| - AsSizeT(limit);
      files := FilesToRemove(entries, keepStart);
    }
    kept := [];
    for i := keepStart to |entries|
      invariant kept == entries[keepStart..i]
    {
      kept := kept + [entries[i]];
    }
  }

  lemma {:induction false} ActiveBelow(db: Db, limit: nat, n: nat)
    requires !UsedAbove(db, limit) && limit <= n
    ensures Active(NullsFirst, db.rows, n) == Active(NullsFirst, db.rows, limit)
  {
    if limit < n {
      ActiveBelow(db, limit, n - 1);
      assert !(n in db.rows && db.rows[n].used);
    }
  }

  // With no used row above the limit, all used rows fit.
  lemma NoneAboveAllFit(db: Db, limit: nat)
    requires !UsedAbove(db, limit)
    ensures |ByAge(NullsFirst, db)| <= limit
  {
    if limit <= db.max {
      ActiveBelow(db, limit, db.max);
      ActiveSound(NullsFirst, db.rows, limit);
    } else {
      ByAgeSound(NullsFirst, db);
    }
  }

  // Refilling with all used rows is refilling with the oldest that fit.
  lemma RefillWithAll(db: Db, limit: nat)
    ensures var all, oldest := Reload(Vals(ByAge(NullsFirst, db))), Vals(OldestEntries(db, limit));
      && Packed(all, limit) == Packed(Reload(oldest), limit)
      && (SizesValid(all, limit) <==> SizesStorable(oldest))
    ensures !UsedAbove(db, limit) ==> Vals(OldestEntries(db, limit)) == KeptRows(db, limit)
    ensures !UsedAbove(db, limit) ==> DroppedRows(db, limit) == []
  {
    var all, oldest := Reload(Vals(ByAge(NullsFirst, db))), Vals(OldestEntries(db, limit));
    assert forall i :: 0 <= i < |oldest| ==> all[i] == Reloaded(oldest[i]);
    if !UsedAbove(db, limit) {
      NoneAboveAllFit(db, limit);
    }
  }

  lemma RefillWithKept(db: Db, limit: nat)
    ensures var all := Reload(Vals(ByAge(NullsFirst, db)));
      var drop := DropCount(|all|, limit);
      && all[drop..] == Reload(KeptRows(db, limit))
      && FilesOf(all[..drop]) == FilesOf(DroppedRows(db, limit))
      && (SizesValid(all[drop..], limit) <==> SizesStorable(KeptRows(db, limit)))
  {
    var all := Reload(Vals(ByAge(NullsFirst, db)));
    var drop := DropCount(|all|, limit);
    assert all[..drop] == Reload(DroppedRows(db, limit));
    FilesOfReload(DroppedRows(db, limit));
  }

  // `counted` says whether the count of used rows above the limit could be read; if not it is taken for 0.
  method ShrinkSlots(b: Store, limit: CInt, force: bool)
      returns (ok: bool, files: seq<Path>, ghost counted: bool)
    requires Staging(b) && limit < b.pending.value.max
    modifies b`pending, b`trail, b`faulty
    ensures Staging(b)
    ensures ok && limit >= 1 ==>
      var r := ResizeIf(old(b.pending.value), limit, force, counted);
      r.Resized? && files == r.removed && b.pending.value == old(b.pending.value).(rows := r.db.rows)
    ensures old(b.faulty) ==> b.faulty
    ensures !b.faulty ==> counted
    ensures !b.faulty && limit >= 1 ==> (ok <==> Resize(old(b.pending.value), limit, force).Resized?)
  {
    ghost var db := b.pending.value;
    files, counted := [], true;
    ok := b.Query();
    if !ok { return; }
    var stepped := b.Query();
    counted := stepped;
    var above := stepped && UsedAbove(b.pending.value, limit);
    if above && !force { return false, files, counted; }
    if above {
      var entries, kept;
      ok, entries := LoadActiveEntries(b);
      if !ok { return; }
      kept, files := KeepNewest(entries, limit);
      if limit >= 1 { RefillWithKept(db, limit); }
      ok := RefillSlots(b, kept, limit);
    } else if force {
      var entries;
      ok, entries := LoadActiveEntries(b);
      if !ok { return; }
      if limit >= 1 { RefillWithAll(db, limit); }
      ok := RefillSlots(b, entries, limit);
    } else {
      var rows := b.pending.value.rows;
      ok := b.Query();
      if !ok { return; }
      ok := b.Execute(b.pending.value.(rows := map id | id in rows && id <= limit :: rows[id]));
    }
  }

  // Rows that are there already need not be ensured.
  lemma SameSlots(rows: map<int, Row>, lo: int, mid: int, hi: int)
    requires forall id :: lo <= id < mid ==> id in rows
    requires lo <= mid
    ensures EnsureSlots(rows, lo, hi) == EnsureSlots(rows, mid, hi)
    ensures mid > hi ==> EnsureSlots(rows, lo, hi) == rows
  {
    var a, b := EnsureSlots(rows, lo, hi), EnsureSlots(rows, mid, hi);
    EnsureSlotsRows(rows, lo, hi);
    EnsureSlotsRows(rows, mid, hi);
    assert forall id :: id in a <==> id in b;
    assert forall id :: id in a ==> a[id] == b[id];
  }

  /** apply_resize, after prepare_schema has found `current` slots */
  method ApplyResize(b: Store, limit: CInt, force: bool, current: nat)
      returns (ok: bool, resized: bool, files: seq<Path>, resetNext: bool, ghost counted: bool)
    requires Staging(b) && GoodDb(b.pending.value) && current == b.pending.value.max
    modifies b`pending, b`trail, b`faulty
    ensures Staging(b)
    ensures resetNext <==> ok && force && limit < current
    ensures resized <==> ok && limit != current
    ensures ok && limit >= current ==> files == []
    ensures ok && limit >= current ==>
      b.pending.value == old(b.pending.value).(rows := EnsureSlots(old(b.pending.value.rows), 1, limit))
    ensures ok && 1 <= limit < current ==>
      var r := ResizeIf(old(b.pending.value), limit, force, counted);
      r.Resized? && files == r.removed && b.pending.value == old(b.pending.value).(rows := r.db.rows)
    ensures old(b.faulty) ==> b.faulty
    ensures !b.faulty ==> counted
    ensures !b.faulty && 1 <= limit < current ==> (ok <==> Resize(old(b.pending.value), limit, force).Resized?)
    ensures !b.faulty && limit >= current ==> ok
  {
    ghost var db := b.pending.value;
    ok, resized, files, resetNext, counted := true, false, [], false, true;
    if limit >= current {
      SameSlots(db.rows, 1, current + 1, limit);
    }
    if limit > current {
      ok := EnsureSlotRows(b, current + 1, limit);
      resized := ok;
    } else if limit < current {
      ok := b.Execute(b.pending.value);  // dropping the search index
      if !ok { return; }
      ok, files, counted := ShrinkSlots(b, limit, force);
      resized, resetNext := ok, ok && force;
    }
  }

  /** Everything between BEGIN and COMMIT. */
  method StageResize(b: Store, limit: CInt, force: bool)
      returns (r: InitResult, files: seq<Path>, ghost counted: bool)
    requires Staging(b) && b.pending.value == b.committed && GoodDb(b.committed)
    modifies b`pending, b`trail, b`faulty
    ensures Staging(b)
    ensures r.ok ==> ResizeIf(b.committed, limit, force, counted) == Resized(b.pending.value, files)
    ensures r.ok ==> b.pending.value.max == limit
    ensures r.ok ==> r == InitResult(true, b.committed.max == 0, b.committed.max != 0 && limit != b.committed.max,
                                     b.committed.max, limit)
    ensures old(b.faulty) ==> b.faulty
    ensures !b.faulty ==> counted && (r.ok <==> ResizeIf(b.committed, limit, force, counted).Resized?)
  {
    ghost var db := b.committed;
    files, counted := [], true;
    r := InitResult(false, b.pending.value.max == 0, false, 0, limit);
    var ok, previous, resized, resetNext;
    ok := b.Execute(b.pending.value);  // CREATE TABLE IF NOT EXISTS ..
    if !ok { return; }
    ok, previous := EnsureStoreState(b, limit);
    if !ok { return; }
    var current := if previous == 0 then limit else previous;
    EnsureSlotsRows(db.rows, 1, current);
    if previous != 0 { SameSlots(db.rows, 1, current + 1, current); }
    ok := EnsureSlotRows(b, 1, current);
    if !ok { return; }
    if previous == 0 { SameSlots(b.pending.value.rows, 1, limit + 1, limit); }
    ok, resized, files, resetNext, counted := ApplyResize(b, limit, force, current);
    if !ok { return; }
    ok := UpdateStoreState(b, limit, resetNext);
    if !ok { return; }
    ok := b.Execute(b.pending.value);  // rebuilding the search index, writing the metadata
    if !ok { return; }
    r := InitResult(true, r.created, resized, previous, limit);
  }

  /** Open, BEGIN, and everything up to COMMIT. */
  method TryResize(b: Store, limit: CInt, force: bool)
      returns (r: InitResult, files: seq<Path>, ghost counted: bool)
    requires b.pending.None? && Untouched(b) && Inv(b.Now())
    modifies b`pending, b`trail, b`faulty
    ensures Untouched(b)
    ensures r.ok ==> b.pending.Some? && b.pending.value.max == limit
    ensures r.ok ==> ResizeIf(b.committed, limit, force, counted) == Resized(b.pending.value, files)
    ensures r.ok ==> r == InitResult(true, b.committed.max == 0, b.committed.max != 0 && limit != b.committed.max,
                                     b.committed.max, limit)
    ensures old(b.faulty) ==> b.faulty
    ensures !b.faulty ==> counted && (r.ok <==> ResizeIf(b.committed, limit, force, counted).Resized?)
  {
    hide ResizeIf;
    files, counted, r := [], true, InitResult(false, false, false, 0, limit);
    var ok := b.Query();
    if ok { ok := b.Begin(); }
    if ok { r, files, counted := StageResize(b, limit, force); }
  }

  method RemoveFiles(b: Store, files: seq<Path>)
    requires b.OnTrack() && b.committed == b.goal.db && b.goal.disk == WithoutAll(b.before.disk, files)
    requires b.disk == b.before.disk && b.tidy
    modifies b`disk, b`trail, b`tidy, b`faulty
    ensures b.OnTrack() && Covers(b.Now(), b.goal) && (b.tidy ==> b.Now() == b.goal)
    ensures old(b.faulty) ==> b.faulty
    ensures !b.faulty ==> b.tidy
  {
    for i := 0 to |files|
      modifies b`disk, b`trail, b`tidy, b`faulty
      invariant b.OnTrack() && Extends(b.disk, b.goal.disk)
      invariant b.tidy ==> b.disk == WithoutAll(b.before.disk, files[..i])
      invariant old(b.faulty) ==> b.faulty
      invariant !b.faulty ==> b.tidy
    {
      b.RemoveIfAny(Some(files[i]));
      assert files[..i + 1] == files[..i] + [files[i]];
    }
    assert files[..|files|] == files;
  }

  method InitSchemaFile(b: Store, limit: CInt, force: bool) returns (r: InitResult, ghost counted: bool)
    requires b.Valid()
    modifies b
    ensures b.Valid()
    ensures b.Outcome(old(b.Now()), Restart(limit, force, counted), r.ok)
    ensures !b.faulty ==> counted
    ensures r.ok ==> b.committed.max == limit == r.currentMax && r.previousMax == old(b.committed.max)
    ensures r.ok ==> (r.created <==> r.previousMax == 0) && (r.resized <==> r.previousMax !in {0, limit})
  {
    hide ResizeIf, Inv;
    b.Watch(b.Now());
    var files;
    r, files, counted := TryResize(b, limit, force);
    SafeAround(b.Now(), Restart(limit, force, counted));
    b.Aim(Apply(b.Now(), Restart(limit, force, counted)));
    if r.ok {
      var ok := b.Commit();
      r := r.(ok := ok);
    }
    if !r.ok {
      b.Rollback();
      return;
    }
    RemoveFiles(b, files);
  }
}
