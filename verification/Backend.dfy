/**
 The two durable things the store works on, an SQLite database and an upload directory, with the
 primitive steps that touch them. Any step may fail. A statement outside a transaction takes effect at
 once; inside one it takes effect when the transaction commits, or not at all.
 */
module Backend {
  import opened Rows
  import opened StoreMachine

  ghost predicate Traced(trail: seq<Snapshot>, before: Snapshot, goal: Snapshot) {
    forall k :: 0 <= k < |trail| ==> Between(trail[k], before, goal)
  }

  // Where a request passes only such states, each of them, hence each crash state, is good.
  lemma SafeAround(before: Snapshot, op: Op)
    requires Inv(before) && Fresh(before, op)
    ensures forall t :: Between(t, before, Apply(before, op)) ==> Inv(t)
  {
    forall t | Between(t, before, Apply(before, op)) ensures Inv(t) {
      NextKeepsInv(before, op, t);
    }
  }

  class Store {
    var committed: Db
    var pending: Option<Db>
    var disk: Disk

    // The current request: the state it began in, the state it aims for, the durable state after each
    // of its steps, whether no file clean-up has failed, and whether any step has failed.
    ghost var before: Snapshot
    ghost var goal: Snapshot
    ghost var trail: seq<Snapshot>
    ghost var tidy: bool
    ghost var faulty: bool

    constructor ()
      ensures Valid() && Now() == BLANK
    {
      committed, pending, disk := NO_STORE, None, map[];
      before, goal, trail, tidy, faulty := BLANK, BLANK, [], true, false;
    }

    ghost function Now(): Snapshot
      reads `committed, `disk
    {
      Snapshot(committed, disk)
    }

    /** What statements on the connection see. */
    function Visible(): Db
      reads `committed, `pending
    {
      if pending.Some? then pending.value else committed
    }

    /** Every durable state since the request began is the one before it or the one it aims for. */
    ghost predicate OnTrack()
      reads `before, `goal, `trail
    {
      Traced(trail, before, goal)
    }

    /** Between requests: no open transaction, and every state since the request began was good. */
    ghost predicate Valid()
      reads this
    {
      pending.None? && Inv(Now()) && forall k :: 0 <= k < |trail| ==> Inv(trail[k])
    }

    // A request has ended. If it reports success, the store is what `Apply` says; if not, it is as
    // before; either way up to leftover files if a clean-up failed. At no step would a crash have found
    // anything else. And if no step failed, it did what `Apply` says and reports success if accepted.
    ghost predicate Outcome(start: Snapshot, op: Op, ok: bool)
      reads this
    {
      && Covers(Now(), if ok then Apply(start, op) else start)
      && (tidy ==> Now() == if ok then Apply(start, op) else start)
      && Traced(trail, start, Apply(start, op))
      && (!faulty ==> Now() == Apply(start, op) && (ok <==> Accepts(start, op)))
    }

    /** A request begins. */
    ghost method Watch(aim: Snapshot)
      requires pending.None?
      modifies `before, `goal, `trail, `tidy, `faulty
      ensures before == Now() && goal == aim && trail == [Now()] && OnTrack() && tidy && !faulty
    {
      before, goal, trail, tidy, faulty := Now(), aim, [Now()], true, false;
    }

    /** What the request aims for turns out while it runs, before anything durable has changed. */
    ghost method Aim(aim: Snapshot)
      requires OnTrack() && goal == before
      modifies `goal
      ensures OnTrack() && goal == aim
    {
      goal := aim;
    }

    // What a request leaves behind is a `Next` step, and so is what a crash finds at any point of it;
    // without a failed clean-up it is the old state or the full effect.
    lemma OutcomeIsNext(start: Snapshot, op: Op, ok: bool)
      requires Outcome(start, op, ok)
      ensures Next(start, op, Now())
      ensures forall k :: 0 <= k < |trail| ==> Next(start, op, trail[k])
      ensures tidy ==> Now() == start || Now() == Apply(start, op)
    {
    }

    // ----- The database -----

    /** Opening the database, or preparing or stepping a statement that only reads. */
    method Query() returns (ok: bool)
      modifies `faulty
      ensures faulty == (old(faulty) || !ok)
    {
      ok := *;
      faulty := faulty || !ok;
    }

    method Begin() returns (ok: bool)
      requires pending.None?
      modifies `pending, `trail, `faulty
      ensures pending == if ok then Some(committed) else None
      ensures trail == old(trail) + [Now()]
      ensures old(OnTrack()) && Between(Now(), before, goal) ==> OnTrack()
      ensures faulty == (old(faulty) || !ok)
    {
      ok := *;
      if ok {
        pending := Some(committed);
      }
      trail := trail + [Now()];
      faulty := faulty || !ok;
    }

    /** One data-changing statement inside a transaction; its effect on what is visible is `after`. */
    method Execute(after: Db) returns (ok: bool)
      requires pending.Some?
      modifies `pending, `trail, `faulty
      ensures pending == if ok then Some(after) else old(pending)
      ensures trail == old(trail) + [Now()]
      ensures old(OnTrack()) && Between(Now(), before, goal) ==> OnTrack()
      ensures faulty == (old(faulty) || !ok)
    {
      ok := *;
      if ok {
        pending := Some(after);
      }
      trail := trail + [Now()];
      faulty := faulty || !ok;
    }

    /** One data-changing statement that is its own transaction. */
    method ExecuteAlone(after: Db) returns (ok: bool)
      requires pending.None?
      modifies `committed, `trail, `faulty
      ensures committed == if ok then after else old(committed)
      ensures trail == old(trail) + [Now()]
      ensures old(OnTrack()) && Between(Now(), before, goal) ==> OnTrack()
      ensures faulty == (old(faulty) || !ok)
    {
      ok := *;
      if ok {
        committed := after;
      }
      trail := trail + [Now()];
      faulty := faulty || !ok;
    }

    method Commit() returns (ok: bool)
      requires pending.Some?
      modifies `committed, `pending, `trail, `faulty
      ensures if ok then committed == old(pending).value && pending == None
              else committed == old(committed) && pending == old(pending)
      ensures trail == old(trail) + [Now()]
      ensures old(OnTrack()) && Between(Now(), before, goal) ==> OnTrack()
      ensures faulty == (old(faulty) || !ok)
    {
      ok := *;
      if ok {
        committed, pending := pending.value, None;
      }
      trail := trail + [Now()];
      faulty := faulty || !ok;
    }

    method Rollback()
      modifies `pending, `trail
      ensures pending == None
      ensures trail == old(trail) + [Now()]
      ensures old(OnTrack()) && Between(Now(), before, goal) ==> OnTrack()
    {
      pending := None;
      trail := trail + [Now()];
    }

    /** read_entry_file_path, whose result its callers ignore: a failed read looks like "no file". */
    method ReadFilePath(id: int) returns (path: Option<Path>)
      modifies `tidy, `faulty
      ensures (path == PathAt(Visible(), id) && tidy == old(tidy) && faulty == old(faulty))
           || (path == None && !tidy && faulty)
    {
      var ok := Query();
      if ok {
        path := PathAt(Visible(), id);
      } else {
        path, tidy := None, false;
      }
    }

    /** load_entry: fails for a missing or unused row, or when the row cannot be read (`misread`). */
    method LoadEntry(id: int, requireUsed: bool)
        returns (ok: bool, record: KaringRecord, path: Option<Path>, ghost misread: bool)
      modifies `faulty
      ensures ok ==>
        && id in Visible().rows && (requireUsed ==> IsUsed(Visible(), id))
        && record == LoadedRecord(id, Visible().rows[id]) && path == Visible().rows[id].path
      ensures ok <==> !misread && id in Visible().rows && (requireUsed ==> IsUsed(Visible(), id))
      ensures faulty == (old(faulty) || misread)
    {
      ok, record, path := false, KaringRecord(0, false, "", "", "", 0, None), None;
      var readable := Query();
      misread := !readable;
      if readable && id in Visible().rows && (!requireUsed || Visible().rows[id].used) {
        ok, record, path := true, LoadedRecord(id, Visible().rows[id]), Visible().rows[id].path;
      }
    }

    // ----- The upload directory -----

    /** write_for_slot: the file is created empty and then filled; a failed write may leave part of it. */
    method WriteForSlot(id: int, data: string, stamp: int) returns (ok: bool, path: Path)
      modifies `disk, `trail, `tidy, `faulty
      ensures path == EntryFile(id, stamp)
      ensures ok ==> disk == old(disk)[path := data] && tidy == old(tidy)
      ensures !ok ==>
        || (disk == old(disk) && tidy == old(tidy))
        || (!tidy && path in disk && disk[path] <= data && disk == old(disk)[path := disk[path]])
      ensures trail == old(trail) + [Now()]
        || trail == old(trail) + [Snapshot(committed, old(disk)[path := ""]), Now()]
      ensures
        && old(OnTrack()) && Between(Now(), before, goal)
        && Between(Snapshot(committed, old(disk)[path := ""]), before, goal)
        ==> OnTrack()
      ensures faulty == (old(faulty) || !ok)
    {
      path := EntryFile(id, stamp);
      var created: bool := *;
      ok := *;
      ok := ok && created;
      faulty := faulty || !ok;
      if !created {
        trail := trail + [Now()];
        return;
      }
      ghost var disk0 := disk;
      ghost var trail0 := trail;
      disk := disk[path := ""];
      trail := trail + [Now()];
      var written: int := *;
      var part := if !ok && 0 <= written <= |data| then data[..written] else data;
      disk := disk[path := part];
      assert disk == disk0[path := part];
      tidy := tidy && ok;
      trail := trail + [Now()];
      assert trail == trail0 + [Snapshot(committed, disk0[path := ""]), Now()];
    }

    method Read(path: Path) returns (ok: bool, data: string)
      modifies `faulty
      ensures ok ==> path in disk && data == disk[path]
      ensures old(faulty) ==> faulty
      ensures !faulty ==> (ok <==> path in disk)
    {
      ok := Query();
      if ok && path in disk {
        data := disk[path];
      } else {
        ok, data := false, "";
      }
    }

    /** remove_if_any: errors are ignored, so the file may stay. */
    method RemoveIfAny(path: Option<Path>)
      modifies `disk, `trail, `tidy, `faulty
      ensures (disk == Without(old(disk), path) && tidy == old(tidy) && faulty == old(faulty))
           || (disk == old(disk) && !tidy && faulty)
      ensures trail == old(trail) + [Now()]
      ensures old(OnTrack()) && Between(Now(), before, goal) ==> OnTrack()
    {
      var removed: bool := *;
      if removed {
        disk := Without(disk, path);
      } else if path.Some? {
        tidy, faulty := false, true;
      }
      trail := trail + [Now()];
    }
  }
}
