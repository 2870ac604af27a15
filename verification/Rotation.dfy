/**
 Rotation in closed form: what a fresh store holds after any number of inserts.
 */
module Rotation {
  import opened Rows
  import opened Compaction
  import opened StoreMachine

  predicate IsInsert(op: Op) {
    op.InsertText? || op.InsertFile?
  }

  function StoredRow(op: Op, slot: int): Row
    requires IsInsert(op)
  {
    match op
    case InsertText(content, now) => TextRow(content, now, now)
    case InsertFile(filename, mime, data, stamp, now) =>
      FileRow(filename, mime, data, EntryFile(slot, stamp), now, now)
  }

  function ApplyAll(s: Snapshot, ops: seq<Op>): Snapshot {
    if ops == [] then s else Apply(ApplyAll(s, ops[..|ops| - 1]), ops[|ops| - 1])
  }

  /** The slot the k-th insert goes to, counting from 1. */
  function SlotOf(k: nat, size: nat): (slot: nat)
    requires k > 0 && size > 0
    ensures 1 <= slot <= size
  {
    if k <= size then k else SlotOf(k - size, size)
  }

  lemma {:induction false} SlotIsModulo(k: nat, size: nat)
    requires k > 0 && size > 0
    ensures SlotOf(k, size) == (k - 1) % size + 1
  {
    if k > size {
      SlotIsModulo(k - size, size);
      ShiftModulo(k - 1 - size, size);
    } else {
      SmallModulo(k - 1, size);
    }
  }

  lemma SmallModulo(x: nat, size: nat)
    requires x < size
    ensures x % size == x
  {
  }

  lemma ShiftModulo(x: nat, size: nat)
    requires size > 0
    ensures (x + size) % size == x % size
  {
    var q, q' := x / size, (x + size) / size;
    Split(x, size);
    Split(x + size, size);
    Distribute(q', q, size);
    Multiple(q' - q - 1, size);
  }

  lemma Split(x: nat, size: nat)
    requires size > 0
    ensures x == (x / size) * size + x % size && 0 <= x % size < size
  {
  }

  lemma Distribute(a: int, b: int, size: nat)
    ensures (a - b - 1) * size == a * size - b * size - size
  {
  }

  lemma Multiple(d: int, size: int)
    requires size > 0
    ensures d * size == 0 || d * size >= size || d * size <= -size
  {
  }

  lemma {:induction false} NextSlot(k: nat, size: nat)
    requires k > 0 && size > 0
    ensures SlotOf(k + 1, size) == if SlotOf(k, size) >= size then 1 else SlotOf(k, size) + 1
  {
    if k > size {
      NextSlot(k - size, size);
    }
  }

  lemma {:induction false} SlotsDiffer(j: nat, k: nat, size: nat)
    requires 0 < j < k < j + size
    ensures SlotOf(j, size) != SlotOf(k, size)
  {
    if j > size {
      SlotsDiffer(j - size, k - size, size);
    }
  }

  function FreshStore(size: nat): Snapshot {
    Apply(BLANK, Restart(size, false, true))
  }

  ghost predicate Holds(db: Db, slot: int, row: Row) {
    slot in db.rows && db.rows[slot] == row
  }

  ghost predicate LastInserts(db: Db, size: nat, ops: seq<Op>)
    requires size > 0 && forall i :: 0 <= i < |ops| ==> IsInsert(ops[i])
  {
    && db.max == size
    && (forall id :: id in db.rows <==> 1 <= id <= size)
    && db.next == SlotOf(|ops| + 1, size)
    && (forall k: nat :: 1 <= k <= |ops| && |ops| - size < k ==>
        Holds(db, SlotOf(k, size), StoredRow(ops[k - 1], SlotOf(k, size))))
    && (forall slot :: |ops| < slot <= size ==> Holds(db, slot, EMPTY_ROW))
  }

  lemma OneMoreInsert(s: Snapshot, size: nat, ops: seq<Op>, op: Op)
    requires size > 0 && IsInsert(op) && forall i :: 0 <= i < |ops| ==> IsInsert(ops[i])
    requires LastInserts(s.db, size, ops)
    ensures LastInserts(Apply(s, op).db, size, ops + [op])
  {
    var n, t, all := |ops| + 1, Apply(s, op).db, ops + [op];
    NextSlot(n, size);
    assert t.rows == s.db.rows[s.db.next := StoredRow(op, s.db.next)];
    forall k: nat | 1 <= k <= n && n - size < k
      ensures Holds(t, SlotOf(k, size), StoredRow(all[k - 1], SlotOf(k, size)))
    {
      if k < n {
        SlotsDiffer(k, n, size);
        assert Holds(s.db, SlotOf(k, size), StoredRow(ops[k - 1], SlotOf(k, size)));
      }
    }
    forall slot | n < slot <= size ensures Holds(t, slot, EMPTY_ROW) {
      assert Holds(s.db, slot, EMPTY_ROW);
    }
  }

  // After n inserts into a fresh store of `size` slots: the cursor is at the slot of insert n + 1, each
  // of the last `size` inserts is in its slot, and slots not reached yet are empty. So the store holds
  // exactly the last min(n, size) inserts.
  lemma {:induction false} RotationClosedForm(size: nat, ops: seq<Op>)
    requires size > 0 && forall i :: 0 <= i < |ops| ==> IsInsert(ops[i])
    ensures LastInserts(ApplyAll(FreshStore(size), ops).db, size, ops)
    ensures ApplyAll(FreshStore(size), ops).db.next == |ops| % size + 1
  {
    if ops == [] {
      EnsureSlotsRows(NO_STORE.rows, 1, size);
    } else {
      var init := ops[..|ops| - 1];
      RotationClosedForm(size, init);
      OneMoreInsert(ApplyAll(FreshStore(size), init), size, init, ops[|ops| - 1]);
      assert init + [ops[|ops| - 1]] == ops;
    }
    SlotIsModulo(|ops| + 1, size);
  }
}
