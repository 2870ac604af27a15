/**
 First in, first out. The cursor turns the slots into a ring; read from the cursor on, the used slots
 hold ever newer entries. While this lasts an insert that overwrites an entry overwrites an oldest one,
 and the slot behind the cursor holds a newest one. Only a swap, or a resequencing whose scan of the
 table broke off, can end it, and it is shown exactly which do; a complete resequencing or a forced
 shrink brings it back.
 */
module AgeOrder {
  import opened Sorting
  import opened Rows
  import opened Compaction
  import opened CompactionLaws
  import opened StoreMachine

  /** How many advances of the cursor away slot `id` is. */
  function RingPos(db: Db, id: int): int {
    if id >= db.next then id - db.next else id - db.next + db.max
  }

  ghost predicate AgeOrdered(db: Db) {
    forall i, j :: IsUsed(db, i) && IsUsed(db, j) && RingPos(db, i) <= RingPos(db, j)
      ==> Age(db.rows[i]) <= Age(db.rows[j])
  }

  /** Nothing was stored after `clock`. */
  ghost predicate StoredBy(db: Db, clock: int) {
    forall i :: IsUsed(db, i) ==> Age(db.rows[i]) <= clock
  }

  /** The clock after the request, which reads it at most once. */
  function ClockAfter(op: Op, clock: int): int {
    match op
    case InsertText(_, now) => now
    case InsertFile(_, _, _, _, now) => now
    case UpdateText(_, _, now) => now
    case UpdateFile(_, _, _, _, _, now) => now
    case PatchText(_, _, now) => now
    case PatchFile(_, _, _, _, _, now) => now
    case DeleteLatest(_, now) => now
    case _ => clock
  }

  // ----- The requests that can break the order -----

  ghost predicate StrictlyBetween(db: Db, k: int, i: int, j: int) {
    || RingPos(db, i) < RingPos(db, k) < RingPos(db, j)
    || RingPos(db, j) < RingPos(db, k) < RingPos(db, i)
  }

  /** No used slot on the way from `i` to `j` holds an entry of another age than slot `i`. */
  ghost predicate NothingPassed(db: Db, i: int, j: int)
    requires i in db.rows
  {
    forall k :: IsUsed(db, k) && StrictlyBetween(db, k, i, j) ==> Age(db.rows[k]) == Age(db.rows[i])
  }

  ghost predicate SwapHarmless(db: Db, i: int, j: int)
    requires i in db.rows && j in db.rows
  {
    if db.rows[i].used && db.rows[j].used then Age(db.rows[i]) == Age(db.rows[j])
    else if db.rows[i].used then NothingPassed(db, i, j)
    else if db.rows[j].used then NothingPassed(db, j, i)
    else true
  }

  /** All entries up to slot `n` are as old as those behind it, or older. */
  ghost predicate OlderUpTo(db: Db, n: int) {
    forall i, j :: IsUsed(db, i) && IsUsed(db, j) && i <= n < j ==> Age(db.rows[i]) <= Age(db.rows[j])
  }

  ghost predicate NewerUpTo(db: Db, n: int) {
    forall i, j :: IsUsed(db, i) && IsUsed(db, j) && i <= n < j ==> Age(db.rows[j]) <= Age(db.rows[i])
  }

  ghost predicate RisesAbove(db: Db, n: int) {
    forall i, j :: IsUsed(db, i) && IsUsed(db, j) && n < i < j ==> Age(db.rows[i]) <= Age(db.rows[j])
  }

  ghost predicate FullUpTo(db: Db, n: int) {
    forall id :: 1 <= id <= n ==> IsUsed(db, id)
  }

  // The first `scanned` slots may be resequenced on their own when the ages rise behind them, and if
  // those slots are full, so that the cursor goes to 1, hold nothing newer than the rest, else nothing
  // older. With the whole table scanned there is no rest.
  ghost predicate PartHarmless(db: Db, scanned: int) {
    RisesAbove(db, scanned) && if FullUpTo(db, scanned) then OlderUpTo(db, scanned) else NewerUpTo(db, scanned)
  }

  /** The request leaves an ordered table ordered. */
  ghost predicate KeepsAge(s: Snapshot, op: Op) {
    match op
    case Swap(i, j) => i == j || i !in s.db.rows || j !in s.db.rows || SwapHarmless(s.db, i, j)
    case Resequence(scanned) => PartHarmless(s.db, scanned)
    case _ => true
  }

  /** The request orders any table. */
  ghost predicate OrdersAges(s: Snapshot, op: Op) {
    || (op.Resequence? && PartHarmless(s.db, op.scanned))
    || (op.Restart? && op.force && 1 <= op.limit < s.db.max && Accepts(s, op))
  }

  // ----- One operation -----

  // The used slots of `b` are used in `a` with the same storing time and the same order on the ring.
  ghost predicate RingSubset(b: Db, a: Db) {
    && (forall i :: IsUsed(b, i) ==> IsUsed(a, i) && Age(b.rows[i]) == Age(a.rows[i]))
    && (forall i, j ::
        IsUsed(b, i) && IsUsed(b, j) && RingPos(b, i) <= RingPos(b, j) ==> RingPos(a, i) <= RingPos(a, j))
  }

  lemma SubsetKeepsAge(b: Db, a: Db)
    requires RingSubset(b, a)
    ensures AgeOrdered(a) ==> AgeOrdered(b)
    ensures forall clock :: StoredBy(a, clock) ==> StoredBy(b, clock)
  {
  }

  lemma InsertKeepsAge(db: Db, row: Row, clock: int)
    requires DomainOk(db) && db.max > 0 && row.used
    requires StoredBy(db, clock) && clock <= Age(row)
    ensures AgeOrdered(db) ==> AgeOrdered(AdvanceNext(UpdateRow(db, db.next, row)))
    ensures StoredBy(AdvanceNext(UpdateRow(db, db.next, row)), Age(row))
  {
  }

  /** Apart from the slot at the cursor, nothing was stored after `time`. */
  ghost predicate OthersStoredBy(db: Db, time: int) {
    forall i :: IsUsed(db, i) && i != db.next ==> Age(db.rows[i]) <= time
  }

  // This is what inserting needs of the clock: it keeps the order exactly if none of the entries that stay
  // is newer than the one it stores. A clock that does not run backwards provides for that.
  lemma InsertKeepsAgeExactly(db: Db, row: Row)
    requires DomainOk(db) && db.max > 0 && row.used && AgeOrdered(db)
    ensures AgeOrdered(AdvanceNext(UpdateRow(db, db.next, row))) <==> OthersStoredBy(db, Age(row))
    ensures StoredBy(db, Age(row)) ==> OthersStoredBy(db, Age(row))
  {
    var t := AdvanceNext(UpdateRow(db, db.next, row));
    assert forall i :: IsUsed(db, i) && i != db.next ==> IsUsed(t, i) && RingPos(t, i) == RingPos(db, i) - 1;
    assert IsUsed(t, db.next) && RingPos(t, db.next) == db.max - 1;
  }

  lemma PutKeepsAge(db: Db, id: int, row: Row, clock: int)
    requires StoredBy(db, clock)
    requires row.used ==> IsUsed(db, id) && Age(row) == Age(db.rows[id])
    ensures AgeOrdered(db) ==> AgeOrdered(UpdateRow(db, id, row))
    ensures StoredBy(UpdateRow(db, id, row), clock)
  {
  }

  // Ages that rise from slot 1 on, with the cursor at 1 or just behind the used slots.
  lemma PackedAge(db: Db, rs: seq<Row>, clock: int)
    requires db.rows == Packed(rs, db.max) && AgesRise(rs) && |rs| <= db.max
    requires db.next == 1 || db.next == |rs| + 1
    requires forall i :: 0 <= i < |rs| ==> Age(rs[i]) <= clock
    ensures AgeOrdered(db) && StoredBy(db, clock)
  {
  }

  lemma ByAgeStoredBy(db: Db, clock: int)
    requires StoredBy(db, clock)
    ensures forall i :: 0 <= i < |ByAge(NullsAsZero, db)| ==> Age(Vals(ByAge(NullsAsZero, db))[i]) <= clock
  {
    var s := ByAge(NullsAsZero, db);
    ByAgeSound(NullsAsZero, db);
    assert forall i :: 0 <= i < |s| ==> IsEntry(NullsAsZero, db.rows, db.max, s[i]);
    assert forall i :: 0 <= i < |s| ==> IsUsed(db, s[i].id);
  }

  // From any table, however swaps have mixed it, resequencing re-establishes the age order.
  lemma ResequenceOrdersAges(db: Db, clock: int)
    requires StoredBy(db, clock)
    ensures AgeOrdered(Resequenced(db)) && StoredBy(Resequenced(db), clock)
  {
    ByAgeRises(db);
    ByAgeStoredBy(db, clock);
    PackedAge(Resequenced(db), Vals(ByAge(NullsAsZero, db)), clock);
  }

  lemma {:induction false} ActiveFull(c: Collation, db: Db, n: nat)
    requires DomainOk(db)
    ensures |Active(c, db.rows, n)| <= n
    ensures |Active(c, db.rows, n)| == n <==> FullUpTo(db, n)
  {
    if n > 0 {
      ActiveFull(c, db, n - 1);
      assert FullUpTo(db, n) <==> FullUpTo(db, n - 1) && IsUsed(db, n);
    }
  }

  /** A table whose first `n` slots were resequenced, as ResequencedPart leaves it. */
  ghost predicate PartOrdered(t: Db, db: Db, n: nat, origin: seq<int>)
    requires DomainOk(db) && n <= db.max
  {
    && |origin| <= n && AgeOrigin(FirstSlots(db, n), origin)
    && (|origin| == n <==> FullUpTo(db, n))
    && t.max == db.max && t.next == (if |origin| == n then 1 else |origin| + 1)
    && (forall id :: id in t.rows <==> 1 <= id <= db.max)
    && (forall p :: 0 <= p < |origin| ==> IsUsed(FirstSlots(db, n), origin[p]))
    && (forall id :: 1 <= id <= n ==> t.rows[id] == if id <= |origin| then db.rows[origin[id - 1]] else EMPTY_ROW)
    && (forall id :: n < id <= db.max ==> t.rows[id] == db.rows[id])
  }

  lemma FirstCount(db: Db, n: nat)
    requires DomainOk(db) && n <= db.max
    ensures DomainOk(FirstSlots(db, n))
    ensures |ByAge(NullsAsZero, FirstSlots(db, n))| == n <==> FullUpTo(db, n)
  {
    var first := FirstSlots(db, n);
    ActiveFull(NullsAsZero, first, n);
    assert forall id :: 1 <= id <= n ==> (IsUsed(first, id) <==> IsUsed(db, id));
  }

  lemma PartShape(db: Db, n: nat) returns (origin: seq<int>)
    requires DomainOk(db) && n <= db.max
    ensures PartOrdered(ResequencedPart(db, n), db, n, origin)
  {
    FirstCount(db, n);
    hide Resequenced, ByAge, FullUpTo;
    origin := ResequencePermutes(FirstSlots(db, n));
  }

  // If the scan of the table breaks off, the scanned slots are put in order among themselves and the
  // others stay. That orders the table exactly when `PartHarmless` says so, whatever its order before.
  lemma PartResequenceExactly(db: Db, scanned: nat)
    requires GoodDb(db)
    ensures AgeOrdered(ResequencedPart(db, scanned)) <==> PartHarmless(db, scanned)
  {
    var n := if scanned <= db.max then scanned else db.max;
    var t := ResequencedPart(db, n);
    var origin := PartShape(db, n);
    if AgeOrdered(t) {
      OrderedPartIsHarmless(t, db, n, origin);
    }
    if PartHarmless(db, n) {
      HarmlessPartIsOrdered(t, db, n, origin);
    }
    assert scanned > n ==> (PartHarmless(db, scanned) && PartHarmless(db, n));
  }

  lemma OrderedPartIsHarmless(t: Db, db: Db, n: nat, origin: seq<int>)
    requires GoodDb(db) && n <= db.max && PartOrdered(t, db, n, origin) && AgeOrdered(t)
    ensures PartHarmless(db, n)
  {
    forall i, j | IsUsed(db, i) && IsUsed(db, j) && n < i < j ensures Age(db.rows[i]) <= Age(db.rows[j]) {
      assert IsUsed(t, i) && IsUsed(t, j) && RingPos(t, i) <= RingPos(t, j);
    }
    forall i, j | IsUsed(db, i) && IsUsed(db, j) && i <= n < j
      ensures if |origin| == n then Age(db.rows[i]) <= Age(db.rows[j]) else Age(db.rows[j]) <= Age(db.rows[i])
    {
      assert IsUsed(FirstSlots(db, n), i);
      var p :| 0 <= p < |origin| && origin[p] == i;
      assert t.rows[p + 1] == db.rows[i] && IsUsed(t, p + 1) && IsUsed(t, j);
    }
  }

  lemma HarmlessPartIsOrdered(t: Db, db: Db, n: nat, origin: seq<int>)
    requires GoodDb(db) && n <= db.max && PartOrdered(t, db, n, origin) && PartHarmless(db, n)
    ensures AgeOrdered(t)
  {
    forall i, j | IsUsed(t, i) && IsUsed(t, j) && RingPos(t, i) <= RingPos(t, j)
      ensures Age(t.rows[i]) <= Age(t.rows[j])
    {
      var i' := Source(t, db, n, origin, i);
      var j' := Source(t, db, n, origin, j);
      if i <= n && j <= n {
        assert i <= j;
        OriginRises(db, n, origin, i - 1, j - 1);
      }
    }
  }

  /** The slot whose row slot `i` of the resequenced table holds. */
  lemma Source(t: Db, db: Db, n: nat, origin: seq<int>, i: int) returns (k: int)
    requires DomainOk(db) && n <= db.max && PartOrdered(t, db, n, origin) && IsUsed(t, i)
    ensures IsUsed(db, k) && t.rows[i] == db.rows[k] && 1 <= i <= t.max
    ensures if i <= n then i <= |origin| && k == origin[i - 1] && k <= n else k == i
  {
    k := if i <= n then origin[i - 1] else i;
    assert i <= n ==> IsUsed(FirstSlots(db, n), origin[i - 1]);
  }

  lemma OriginRises(db: Db, n: nat, origin: seq<int>, p: nat, q: nat)
    requires AgeOrigin(FirstSlots(db, n), origin) && p <= q < |origin|
    ensures origin[p] in db.rows && origin[q] in db.rows
    ensures Age(db.rows[origin[p]]) <= Age(db.rows[origin[q]])
  {
    assert IsUsed(FirstSlots(db, n), origin[p]) && IsUsed(FirstSlots(db, n), origin[q]);
  }

  // An ordered table that a broken-off scan leaves out of order: slots of ages 3, 1, 2 with the cursor
  // at 2. With only the first two scanned it becomes 1, 3, 2 with the cursor at 1.
  lemma PartResequenceBreaksOrder(db: Db)
    requires db == Db(map[1 := TextRow("", 3, 3), 2 := TextRow("", 1, 1), 3 := TextRow("", 2, 2)], 2, 3)
    ensures GoodDb(db) && AgeOrdered(db) && !AgeOrdered(ResequencedPart(db, 2))
  {
    ThreeTexts(3, 1, 2, 2);
    hide *;
    PartResequenceExactly(db, 2);
  }

  lemma ThreeTexts(a: int, b: int, c: int, next: int)
    requires 1 <= next <= 3
    ensures var db := Db(map[1 := TextRow("", a, a), 2 := TextRow("", b, b), 3 := TextRow("", c, c)], next, 3);
      && GoodDb(db)
      && (next == 2 ==> (AgeOrdered(db) <==> b <= c <= a))
      && (PartHarmless(db, 2) <==> a <= c && b <= c)
  {
    var db := Db(map[1 := TextRow("", a, a), 2 := TextRow("", b, b), 3 := TextRow("", c, c)], next, 3);
    assert IsUsed(db, 1) && IsUsed(db, 2) && IsUsed(db, 3);
    assert Age(db.rows[1]) == a && Age(db.rows[2]) == b && Age(db.rows[3]) == c;
    assert next == 2 ==> RingPos(db, 2) == 0 && RingPos(db, 3) == 1 && RingPos(db, 1) == 2;
    assert FullUpTo(db, 2);
  }

  lemma PartStoredBy(db: Db, scanned: nat, clock: int)
    requires GoodDb(db) && StoredBy(db, clock)
    ensures StoredBy(ResequencedPart(db, scanned), clock)
  {
    var n := if scanned <= db.max then scanned else db.max;
    var t := ResequencedPart(db, scanned);
    var origin := PartShape(db, n);
    forall i | IsUsed(t, i) ensures Age(t.rows[i]) <= clock {
      if i <= n {
        assert IsUsed(FirstSlots(db, n), origin[i - 1]) && IsUsed(db, origin[i - 1]);
      } else {
        assert IsUsed(db, i);
      }
    }
  }

  // The forced shrink, which leaves the cursor at 1, orders any table too.
  lemma ForcedShrinkOrdersAges(db: Db, limit: int, clock: int)
    requires GoodDb(db) && StoredBy(db, clock) && 1 <= limit && ForcedShrink(db, limit).Resized?
    ensures AgeOrdered(ForcedShrink(db, limit).db) && StoredBy(ForcedShrink(db, limit).db, clock)
  {
    ByAgeRises(db);
    ByAgeStoredBy(db, clock);
    CollationsAgree(db);
    var s := Vals(ByAge(NullsAsZero, db));
    var kept := KeptRows(db, limit);
    assert forall i :: 0 <= i < |kept| ==> kept[i] == s[DropCount(|s|, limit) + i];
    PackedAge(ForcedShrink(db, limit).db, Reload(kept), clock);
  }

  lemma ResizeKeepsAge(db: Db, limit: int, force: bool, clock: int)
    requires GoodDb(db) && StoredBy(db, clock) && Resize(db, limit, force).Resized?
    ensures AgeOrdered(db) || (force && limit < db.max) ==> AgeOrdered(Resize(db, limit, force).db)
    ensures StoredBy(Resize(db, limit, force).db, clock)
  {
    var t := Resize(db, limit, force).db;
    if db.max == 0 || limit >= db.max {
      EnsureSlotsRows(db.rows, 1, limit);
      SubsetKeepsAge(t, db);
    } else if !force {
      SubsetKeepsAge(t, db);
    } else {
      ForcedShrinkOrdersAges(db, limit, clock);
    }
  }

  lemma ResizeBlindKeepsAge(db: Db, limit: int, force: bool, clock: int)
    requires GoodDb(db) && StoredBy(db, clock) && ResizeBlind(db, limit, force).Resized?
    ensures AgeOrdered(db) || (force && limit < db.max) ==> AgeOrdered(ResizeBlind(db, limit, force).db)
    ensures StoredBy(ResizeBlind(db, limit, force).db, clock)
  {
    var t := ResizeBlind(db, limit, force).db;
    if limit >= db.max {
      ResizeKeepsAge(db, limit, force, clock);
    } else if !force {
      SubsetKeepsAge(t, db);
    } else {
      ByAgeRises(db);
      ByAgeStoredBy(db, clock);
      CollationsAgree(db);
      var oldest := Vals(OldestEntries(db, limit));
      assert forall i :: 0 <= i < |oldest| ==> oldest[i] == Vals(ByAge(NullsAsZero, db))[i];
      PackedAge(t, Reload(oldest), clock);
    }
  }

  // Every request keeps the age order exactly when `KeepsAge` says so, and some establish it.
  lemma ApplyKeepsAge(s: Snapshot, op: Op, clock: int)
    requires GoodDb(s.db) && StoredBy(s.db, clock) && clock <= ClockAfter(op, clock)
    ensures AgeOrdered(s.db) ==> (AgeOrdered(Apply(s, op).db) <==> KeepsAge(s, op))
    ensures OrdersAges(s, op) ==> AgeOrdered(Apply(s, op).db)
    ensures StoredBy(Apply(s, op).db, ClockAfter(op, clock))
  {
    hide AgeOrdered, PartHarmless, SwapHarmless, ResequencedPart;
    var id, row := Written(s, op);
    match op
    case InsertText(content, now) =>
      if s.db.next in s.db.rows {
        InsertKeepsAge(s.db, TextRow(content, now, now), clock);
      }
    case InsertFile(filename, mime, data, stamp, now) =>
      if s.db.next in s.db.rows {
        var put := FileRow(filename, mime, data, EntryFile(s.db.next, stamp), now, now);
        InsertKeepsAge(s.db, put, clock);
        assert Age(put) == now;
      }
    case Resequence(scanned) =>
      PartResequenceExactly(s.db, scanned);
      PartStoredBy(s.db, scanned, clock);
    case Swap(i, j) =>
      SwapAges(s.db, i, j, clock);
    case Restart(limit, force, counted) =>
      if ResizeIf(s.db, limit, force, counted).Resized? {
        if counted {
          ResizeKeepsAge(s.db, limit, force, clock);
        } else {
          ResizeBlindKeepsAge(s.db, limit, force, clock);
        }
      }
    case _ => PutKeepsAge(s.db, id, row, clock);
  }

  lemma SwapAges(db: Db, i: int, j: int, clock: int)
    requires DomainOk(db) && StoredBy(db, clock)
    ensures StoredBy(SwapRows(db, i, j), clock)
    ensures AgeOrdered(db) ==>
      (AgeOrdered(SwapRows(db, i, j)) <==> i == j || i !in db.rows || j !in db.rows || SwapHarmless(db, i, j))
  {
    if i in db.rows && i == j {
      assert SwapRows(db, i, j) == db;
    } else if i in db.rows && j in db.rows && AgeOrdered(db) {
      SwapKeepsAgeExactly(db, i, j);
    }
  }

  // The row an update, patch or delete writes (or the row that stays, if it writes none).
  lemma Written(s: Snapshot, op: Op) returns (id: int, row: Row)
    ensures op.UpdateText? || op.UpdateFile? || op.PatchText? || op.PatchFile? || op.Delete? || op.DeleteLatest? ==>
      && Apply(s, op).db == UpdateRow(s.db, id, row)
      && (row.used ==> IsUsed(s.db, id) && Age(row) == Age(s.db.rows[id]))
  {
    match op
    case Delete(i) => id, row := i, EMPTY_ROW;
    case DeleteLatest(maxAge, now) =>
      id, row := if LatestDeletable(s.db, maxAge, now) then PreviousSlot(s.db).value else 0, EMPTY_ROW;
      if !LatestDeletable(s.db, maxAge, now) && 0 in s.db.rows {
        row := s.db.rows[0];
      }
    case UpdateText(i, _, _) => id, row := WrittenAt(s, i, op);
    case UpdateFile(i, _, _, _, _, _) => id, row := WrittenAt(s, i, op);
    case PatchText(i, _, _) => id, row := WrittenAt(s, i, op);
    case PatchFile(i, _, _, _, _, _) => id, row := WrittenAt(s, i, op);
    case _ => id, row := 0, EMPTY_ROW;
  }

  lemma WrittenAt(s: Snapshot, i: int, op: Op) returns (id: int, row: Row)
    requires (op.UpdateText? || op.UpdateFile? || op.PatchText? || op.PatchFile?) && i == op.id
    ensures id == i && Apply(s, op).db == UpdateRow(s.db, id, row)
    ensures row.used ==> IsUsed(s.db, id) && Age(row) == Age(s.db.rows[id])
  {
    id, row := i, if IsUsed(s.db, i) then Apply(s, op).db.rows[i]
                  else if i in s.db.rows then s.db.rows[i] else EMPTY_ROW;
    if i in s.db.rows {
      assert s.db.rows[i := s.db.rows[i]] == s.db.rows;
    }
  }

  // ----- Whole runs -----

  /** No request reads an earlier time than the requests before it did. */
  ghost predicate ClockedStep(op: Op, before: int, after: int) {
    before <= after == ClockAfter(op, before)
  }

  // A run with its clock readings, from any good state with nothing stored in the future, such as the
  // blank store.
  ghost predicate ClockedRun(states: seq<Snapshot>, ops: seq<Op>, clocks: seq<int>) {
    && Run(states, ops)
    && |clocks| == |states|
    && (forall k :: 0 <= k < |ops| ==> ClockedStep(ops[k], clocks[k], clocks[k + 1]))
    && Inv(states[0]) && StoredBy(states[0].db, clocks[0])
  }

  /** The step changed no row, or is of a kind that keeps an ordered table ordered. */
  ghost predicate HarmlessStep(s: Snapshot, op: Op, t: Snapshot) {
    t.db == s.db || KeepsAge(s, op)
  }

  /** In state `m` the table is in order: as it happens, or because the request before brought it there. */
  ghost predicate OrderedAt(states: seq<Snapshot>, ops: seq<Op>, m: nat)
    requires |states| == |ops| + 1 && m < |states|
  {
    || AgeOrdered(states[m].db)
    || (m > 0 && OrdersAges(states[m - 1], ops[m - 1]) && states[m].db == Apply(states[m - 1], ops[m - 1]).db)
  }

  /** In state `m` the table was in order, and no request up to state `k` broke it. */
  ghost predicate UnbrokenSince(states: seq<Snapshot>, ops: seq<Op>, m: nat, k: nat)
    requires |states| == |ops| + 1
  {
    && m <= k < |states| && OrderedAt(states, ops, m)
    && forall i :: m <= i < k ==> HarmlessStep(states[i], ops[i], states[i + 1])
  }

  lemma {:induction false} RunStoredBy(states: seq<Snapshot>, ops: seq<Op>, clocks: seq<int>, k: nat)
    requires ClockedRun(states, ops, clocks) && k < |states|
    ensures Inv(states[k]) && StoredBy(states[k].db, clocks[k])
  {
    RunKeepsInv(states, ops, k);
    if k > 0 {
      RunStoredBy(states, ops, clocks, k - 1);
      assert ClockedStep(ops[k - 1], clocks[k - 1], clocks[k - 1 + 1]);
      assert Next(states[k - 1], ops[k - 1], states[k - 1 + 1]);
      ApplyKeepsAge(states[k - 1], ops[k - 1], clocks[k - 1]);
    }
  }

  lemma {:induction false} RunKeepsAge(states: seq<Snapshot>, ops: seq<Op>, clocks: seq<int>, m: nat, k: nat)
    requires ClockedRun(states, ops, clocks) && UnbrokenSince(states, ops, m, k)
    ensures AgeOrdered(states[k].db)
  {
    hide Apply, AgeOrdered, StoredBy, KeepsAge, OrdersAges, GoodDb;
    if k > 0 {
      RunStoredBy(states, ops, clocks, k - 1);
      assert ClockedStep(ops[k - 1], clocks[k - 1], clocks[k - 1 + 1]);
      ApplyKeepsAge(states[k - 1], ops[k - 1], clocks[k - 1]);
      if m < k {
        RunKeepsAge(states, ops, clocks, m, k - 1);
        assert Next(states[k - 1], ops[k - 1], states[k - 1 + 1]);
        assert HarmlessStep(states[k - 1], ops[k - 1], states[k - 1 + 1]);
      }
    }
  }

  // Rotation is first in, first out over whole runs: as long as the order is not broken, an insert that
  // overwrites a used slot finds no older entry in the store than that one, and none newer than the one
  // it stores. The order holds in the blank store, and again after each request that orders any table.
  lemma InsertEvictsOldest(states: seq<Snapshot>, ops: seq<Op>, clocks: seq<int>, m: nat, k: nat, id: int)
    requires ClockedRun(states, ops, clocks) && k < |ops| && UnbrokenSince(states, ops, m, k)
    requires ops[k].InsertText? || ops[k].InsertFile?
    requires IsUsed(states[k].db, id)
    ensures var db, t := states[k].db, Apply(states[k], ops[k]).db;
      && IsUsed(t, db.next)
      && Age(db.rows[id]) <= Age(t.rows[db.next]) == clocks[k + 1]
      && (IsUsed(db, db.next) ==> Age(db.rows[db.next]) <= Age(db.rows[id]))
  {
    RunStoredBy(states, ops, clocks, k);
    RunKeepsAge(states, ops, clocks, m, k);
    assert ClockedStep(ops[k], clocks[k], clocks[k + 1]);
    var db := states[k].db;
    assert db.next in db.rows;
    assert RingPos(db, db.next) <= RingPos(db, id);
  }

  // ----- Swapping two slots: exactly when the age order survives -----

  lemma MoveKeepsAge(db: Db, i: int, j: int)
    requires DomainOk(db) && AgeOrdered(db) && IsUsed(db, i) && j in db.rows && !db.rows[j].used
    ensures AgeOrdered(SwapRows(db, i, j)) <==> NothingPassed(db, i, j)
  {
    var t := SwapRows(db, i, j);
    assert forall k :: IsUsed(t, k) <==> k == j || (k != i && IsUsed(db, k));
    assert forall k :: RingPos(t, k) == RingPos(db, k);
    if AgeOrdered(t) {
      forall k | IsUsed(db, k) && StrictlyBetween(db, k, i, j)
        ensures Age(db.rows[k]) == Age(db.rows[i])
      {
        assert IsUsed(t, k) && t.rows[k] == db.rows[k] && t.rows[j] == db.rows[i];
      }
    }
    if NothingPassed(db, i, j) {
      forall k | IsUsed(t, k)
        ensures RingPos(t, k) <= RingPos(t, j) ==> Age(t.rows[k]) <= Age(t.rows[j])
        ensures RingPos(t, j) <= RingPos(t, k) ==> Age(t.rows[j]) <= Age(t.rows[k])
      {
        if k != j {
          assert IsUsed(db, k) && t.rows[k] == db.rows[k];
          assert RingPos(db, k) != RingPos(db, i) && RingPos(db, k) != RingPos(db, j);
          if StrictlyBetween(db, k, i, j) {
            assert Age(db.rows[k]) == Age(db.rows[i]);
          }
        }
      }
    }
  }

  // A swap keeps the age order exactly when the two entries have the same age, or the one entry it moves
  // passes no entry of another age.
  lemma SwapKeepsAgeExactly(db: Db, i: int, j: int)
    requires DomainOk(db) && AgeOrdered(db) && i in db.rows && j in db.rows && i != j
    ensures AgeOrdered(SwapRows(db, i, j)) <==> SwapHarmless(db, i, j)
  {
    var t := SwapRows(db, i, j);
    assert forall k :: RingPos(t, k) == RingPos(db, k);
    if db.rows[i].used && db.rows[j].used {
      assert RingPos(db, i) != RingPos(db, j);
      assert IsUsed(t, i) && IsUsed(t, j) && IsUsed(db, i) && IsUsed(db, j);
      if Age(db.rows[i]) == Age(db.rows[j]) {
        assert forall k :: IsUsed(t, k) ==> IsUsed(db, k) && Age(t.rows[k]) == Age(db.rows[k]);
      }
    } else if db.rows[i].used {
      MoveKeepsAge(db, i, j);
    } else if db.rows[j].used {
      MoveKeepsAge(db, j, i);
      assert SwapRows(db, j, i).rows == t.rows;
    } else {
      SubsetKeepsAge(t, db);
    }
  }
}
