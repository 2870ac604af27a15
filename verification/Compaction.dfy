/**
 The two compactions of the table, as functions: resequencing (sqlite/store/entry_store.cpp) and the
 resize done at start-up (sqlite/db/db_init.cpp, db_init_common.cpp, db_resize.cpp), with the proofs
 of what they keep, where they put it, and how the two agree.
 */
module Compaction {
  import opened Sorting
  import opened Rows

  function Ids(n: int): (r: set<int>)
    ensures forall id :: id in r <==> 1 <= id <= n
    decreases if n < 0 then 0 else n
  {
    if n <= 0 then {} else Ids(n - 1) + {n}
  }

  /** Slots 1..n holding `rs` from slot 1 on, and empty rows after it. */
  function Packed(rs: seq<Row>, n: int): (m: map<int, Row>)
    ensures forall id :: id in m <==> 1 <= id <= n
  {
    map id | id in Ids(n) :: if id <= |rs| then rs[id - 1] else EMPTY_ROW
  }

  // ----- Resequencing -----

  function Resequenced(db: Db): Db
  {
    var rs := Vals(ByAge(NullsAsZero, db));
    Db(Packed(rs, db.max), if |rs| >= db.max then 1 else |rs| + 1, db.max)
  }

  /** The first `n` slots as a table of their own. */
  function FirstSlots(db: Db, n: nat): Db {
    Db(map id | id in db.rows && id <= n :: db.rows[id], 1, n)
  }

  // The scan that resequencing reads the table with takes any failing step for its end, so what is
  // resequenced are the `scanned` rows that were delivered; the others stay where they are.
  function ResequencedPart(db: Db, scanned: nat): Db {
    var part := Resequenced(FirstSlots(db, if scanned <= db.max then scanned else db.max));
    Db(db.rows + part.rows, part.next, db.max)
  }

  lemma WholeTableScanned(db: Db, scanned: nat)
    requires DomainOk(db) && scanned >= db.max
    ensures ResequencedPart(db, scanned) == Resequenced(db)
  {
    assert FirstSlots(db, db.max).rows == db.rows;
    assert db.rows + Resequenced(db).rows == Resequenced(db).rows;
  }

  // ----- Resizing -----

  const TWO_31: int := 0x8000_0000
  const TWO_32: int := 0x1_0000_0000

  /** What sqlite3_column_int returns for a stored 64-bit integer. */
  function Int32(x: int): int {
    if x % TWO_32 < TWO_31 then x % TWO_32 else x % TWO_32 - TWO_32
  }

  lemma Int32Exact(x: int)
    requires 0 <= x
    ensures Int32(x) == x <==> x < TWO_31
  {
  }

  /** A row after load_active_entries and repopulate_active_entries. */
  function Reloaded(r: Row): Row {
    r.(used := true, size := Int32(r.size), stored := Some(Age(r)), updated := Some(r.updated.GetOr(0)))
  }

  function Reload(rs: seq<Row>): (r: seq<Row>)
    ensures |r| == |rs|
    ensures forall i :: 0 <= i < |rs| ==> r[i] == Reloaded(rs[i])
  {
    seq(|rs|, i requires 0 <= i < |rs| => Reloaded(rs[i]))
  }

  /** The files of the given rows, in order. */
  function FilesOf(rs: seq<Row>): seq<Path> {
    if rs == [] then []
    else (if rs[0].path.Some? then [rs[0].path.value] else []) + FilesOf(rs[1..])
  }

  /** INSERT OR IGNORE an empty row for each id in lo..hi. */
  function EnsureSlots(rows: map<int, Row>, lo: int, hi: int): map<int, Row>
    decreases if lo > hi then 0 else hi - lo + 1
  {
    if lo > hi then rows
    else EnsureSlots(if lo in rows then rows else rows[lo := EMPTY_ROW], lo + 1, hi)
  }

  function ClampNext(next: int, limit: int): int {
    if next > limit then 1 else next
  }

  function DropCount(k: nat, limit: int): (d: nat)
    requires 0 <= limit
    ensures d <= k && k - d <= limit && (d == 0 || k - d == limit)
  {
    if k > limit then k - limit else 0
  }

  function KeptRows(db: Db, limit: int): seq<Row>
    requires 0 <= limit
  {
    var s := Vals(ByAge(NullsFirst, db));
    s[DropCount(|s|, limit)..]
  }

  function DroppedRows(db: Db, limit: int): seq<Row>
    requires 0 <= limit
  {
    var s := Vals(ByAge(NullsFirst, db));
    s[..DropCount(|s|, limit)]
  }

  predicate UsedAbove(db: Db, limit: int) {
    exists id :: id in db.rows && id > limit && db.rows[id].used
  }

  /** The CHECK (size_bytes >= 0) constraint, which a truncated size can violate. */
  predicate SizesStorable(rs: seq<Row>) {
    forall i :: 0 <= i < |rs| ==> Int32(rs[i].size) >= 0
  }

  datatype Resizing = Refused | Resized(db: Db, removed: seq<Path>)

  function ForcedShrink(db: Db, limit: int): Resizing
    requires limit >= 1
  {
    var kept := KeptRows(db, limit);
    if SizesStorable(kept)
    then Resized(Db(Packed(Reload(kept), limit), 1, limit), FilesOf(DroppedRows(db, limit)))
    else Refused
  }

  lemma ForcedShrinkAt(db: Db, limit: int, id: int)
    requires 1 <= id <= limit && ForcedShrink(db, limit).Resized?
    ensures var s := ByAge(NullsFirst, db);
      var drop := DropCount(|s|, limit);
      ForcedShrink(db, limit).db.rows[id] == if id <= |s| - drop then Reloaded(s[drop + id - 1].val) else EMPTY_ROW
  {
  }

  /** The start-up transaction: open the store with room for `limit` items. */
  function Resize(db: Db, limit: int, force: bool): Resizing
  {
    if limit < 1 then Refused
    else if db.max == 0 then Resized(Db(EnsureSlots(db.rows, 1, limit), 1, limit), [])
    else if limit >= db.max then
      Resized(Db(EnsureSlots(db.rows, 1, limit), ClampNext(db.next, limit), limit), [])
    else if !force then
      if UsedAbove(db, limit) then Refused
      else Resized(Db(map id | id in db.rows && id <= limit :: db.rows[id], ClampNext(db.next, limit), limit), [])
    else ForcedShrink(db, limit)
  }

  /** The `limit` oldest used rows, or all if there are no more. */
  function OldestEntries(db: Db, limit: nat): seq<Keyed<Row>> {
    var s := ByAge(NullsFirst, db);
    if |s| <= limit then s else s[..limit]
  }

  // The count of used rows above the new limit takes a failing step for a count of 0. Then nothing
  // guards the rows above the limit: the plain shrink deletes them, and the forced shrink writes back
  // all used rows, oldest first, of which only the first `limit` find a slot. No file is removed.
  function ResizeBlind(db: Db, limit: int, force: bool): Resizing {
    if limit < 1 || limit >= db.max then Resize(db, limit, force)
    else if !force then
      Resized(Db(map id | id in db.rows && id <= limit :: db.rows[id], ClampNext(db.next, limit), limit), [])
    else
      var oldest := Vals(OldestEntries(db, limit));
      if SizesStorable(oldest) then Resized(Db(Packed(Reload(oldest), limit), 1, limit), []) else Refused
  }

  function ResizeIf(db: Db, limit: int, force: bool, counted: bool): Resizing {
    if counted then Resize(db, limit, force) else ResizeBlind(db, limit, force)
  }

  lemma {:induction false} EnsureSlotsRows(rows: map<int, Row>, lo: int, hi: int)
    ensures forall id :: id in EnsureSlots(rows, lo, hi) <==> id in rows || lo <= id <= hi
    ensures forall id :: id in EnsureSlots(rows, lo, hi) ==>
      EnsureSlots(rows, lo, hi)[id] == if id in rows then rows[id] else EMPTY_ROW
    decreases if lo > hi then 0 else hi - lo + 1
  {
    if lo <= hi {
      EnsureSlotsRows(if lo in rows then rows else rows[lo := EMPTY_ROW], lo + 1, hi);
    }
  }

  lemma {:induction false} FilesOfMember(rs: seq<Row>, p: Path)
    ensures p in FilesOf(rs) <==> exists i :: 0 <= i < |rs| && rs[i].path == Some(p)
  {
    if rs != [] {
      FilesOfMember(rs[1..], p);
      if exists i :: 0 <= i < |rs| && rs[i].path == Some(p) {
        var i :| 0 <= i < |rs| && rs[i].path == Some(p);
        if i > 0 {
          assert rs[1..][i - 1] == rs[i];
        }
      }
    }
  }

  // ----- Packing rows taken from a good table gives a good table -----

  /** `p` is the file of some entry of `s` at position `lo` or later. */
  ghost predicate FileFrom(s: seq<Keyed<Row>>, lo: nat, p: Path) {
    exists i :: lo <= i < |s| && s[i].val.path == Some(p)
  }

  ghost predicate PathsApart(s: seq<Keyed<Row>>) {
    forall i, j :: 0 <= i < j < |s| && s[i].val.path.Some? ==> s[i].val.path != s[j].val.path
  }

  /** The used rows of a good table, sorted by age: good rows, no shared file, all files present. */
  lemma ByAgeRows(c: Collation, db: Db)
    requires GoodDb(db)
    ensures forall i :: 0 <= i < |ByAge(c, db)| ==>
      RowOk(ByAge(c, db)[i].val) && ByAge(c, db)[i].val.used
    ensures PathsApart(ByAge(c, db))
  {
    var s := ByAge(c, db);
    ByAgeSound(c, db);
    assert forall i :: 0 <= i < |s| ==> IsEntry(c, db.rows, db.max, s[i]);
    forall i, j | 0 <= i < j < |s| && s[i].val.path.Some?
      ensures s[i].val.path != s[j].val.path
    {
      assert s[i].id != s[j].id;
    }
  }

  lemma ByAgeFiles(c: Collation, db: Db, p: Path)
    requires GoodDb(db)
    ensures Refers(db, p) <==> FileFrom(ByAge(c, db), 0, p)
  {
    var s := ByAge(c, db);
    ByAgeSound(c, db);
    if Refers(db, p) {
      var id :| id in db.rows && db.rows[id].path == Some(p);
      var i := ByAgeComplete(c, db, id);
      assert s[i].val.path == Some(p);
    }
    if FileFrom(s, 0, p) {
      var i :| 0 <= i < |s| && s[i].val.path == Some(p);
      assert IsEntry(c, db.rows, db.max, s[i]);
      assert db.rows[s[i].id].path == Some(p);
    }
  }

  ghost predicate TakenFrom(s: seq<Keyed<Row>>, drop: nat, rs: seq<Row>) {
    && |s| == drop + |rs|
    && forall i :: 0 <= i < |rs| ==> rs[i].path == s[drop + i].val.path && RowOk(rs[i])
  }

  lemma PackedGood(s: seq<Keyed<Row>>, drop: nat, rs: seq<Row>, next: int, n: int)
    requires TakenFrom(s, drop, rs) && PathsApart(s) && |rs| <= n && 1 <= next <= n
    ensures GoodDb(Db(Packed(rs, n), next, n))
  {
  }

  lemma PackedFiles(s: seq<Keyed<Row>>, drop: nat, rs: seq<Row>, next: int, n: int, p: Path)
    requires TakenFrom(s, drop, rs) && |rs| <= n
    ensures Refers(Db(Packed(rs, n), next, n), p) <==> FileFrom(s, drop, p)
  {
    var m := Packed(rs, n);
    if Refers(Db(m, next, n), p) {
      var id :| id in m && m[id].path == Some(p);
      assert m[id] == rs[id - 1];
      assert s[drop + (id - 1)].val.path == Some(p);
    }
    if FileFrom(s, drop, p) {
      var i :| drop <= i < |s| && s[i].val.path == Some(p);
      assert rs[i - drop].path == s[drop + (i - drop)].val.path;
      assert m[i - drop + 1] == rs[i - drop];
    }
  }

  lemma ResequencedGood(db: Db)
    requires GoodDb(db)
    ensures GoodDb(Resequenced(db))
    ensures forall p :: Refers(Resequenced(db), p) <==> Refers(db, p)
  {
    var s := ByAge(NullsAsZero, db);
    ByAgeSound(NullsAsZero, db);
    ByAgeRows(NullsAsZero, db);
    if db.max == 0 {
      assert Resequenced(db).rows == db.rows;
    } else {
      PackedGood(s, 0, Vals(s), if |s| >= db.max then 1 else |s| + 1, db.max);
      forall p ensures Refers(Resequenced(db), p) <==> Refers(db, p) {
        ByAgeFiles(NullsAsZero, db, p);
        PackedFiles(s, 0, Vals(s), if |s| >= db.max then 1 else |s| + 1, db.max, p);
      }
    }
  }

  lemma FirstSlotsGood(db: Db, n: nat)
    requires GoodDb(db) && n <= db.max
    ensures GoodDb(FirstSlots(db, n))
  {
  }

  lemma ResequencedPartGood(db: Db, scanned: nat)
    requires GoodDb(db)
    ensures GoodDb(ResequencedPart(db, scanned))
    ensures forall p :: Refers(ResequencedPart(db, scanned), p) <==> Refers(db, p)
  {
    var n := if scanned <= db.max then scanned else db.max;
    var first := FirstSlots(db, n);
    FirstSlotsGood(db, n);
    ResequencedGood(first);
    MergeGood(db, first, Resequenced(first));
  }

  lemma MergeRefers(db: Db, part: Db, p: Path)
    requires DomainOk(db) && DomainOk(part) && part.max <= db.max
    requires Refers(part, p) <==> Refers(FirstSlots(db, part.max), p)
    ensures Refers(Db(db.rows + part.rows, part.next, db.max), p) <==> Refers(db, p)
  {
    var t, first := Db(db.rows + part.rows, part.next, db.max), FirstSlots(db, part.max);
    if i :| i in db.rows && db.rows[i].path == Some(p) {
      if i <= part.max {
        assert first.rows[i].path == Some(p);
        assert Refers(part, p);
        var k :| k in part.rows && part.rows[k].path == Some(p);
        assert t.rows[k].path == Some(p);
      } else {
        assert t.rows[i].path == Some(p);
      }
    }
    if i :| i in t.rows && t.rows[i].path == Some(p) {
      if i <= part.max {
        assert Refers(part, p);
        var k :| k in first.rows && first.rows[k].path == Some(p);
        assert db.rows[k].path == Some(p);
      } else {
        assert db.rows[i].path == Some(p);
      }
    }
  }

  lemma MergeGood(db: Db, first: Db, part: Db)
    requires GoodDb(db) && GoodDb(part) && part.max <= db.max && first == FirstSlots(db, part.max)
    requires forall p :: Refers(part, p) <==> Refers(first, p)
    ensures GoodDb(Db(db.rows + part.rows, part.next, db.max))
    ensures forall p :: Refers(Db(db.rows + part.rows, part.next, db.max), p) <==> Refers(db, p)
  {
    var t := Db(db.rows + part.rows, part.next, db.max);
    forall i, j | i in t.rows && j in t.rows && i <= part.max < j && t.rows[i].path.Some?
      ensures t.rows[i].path != t.rows[j].path
    {
      assert Refers(part, t.rows[i].path.value);
      var k :| k in first.rows && first.rows[k].path == t.rows[i].path;
    }
    forall p ensures Refers(t, p) <==> Refers(db, p) {
      MergeRefers(db, part, p);
    }
  }

  // A blind resize still leaves a good table that refers to no new file.
  lemma ResizeBlindGood(db: Db, limit: int, force: bool)
    requires GoodDb(db) && 1 <= limit < db.max && ResizeBlind(db, limit, force).Resized?
    ensures var t := ResizeBlind(db, limit, force).db;
      GoodDb(t) && forall p :: Refers(t, p) ==> Refers(db, p)
  {
    var t := ResizeBlind(db, limit, force).db;
    if force {
      var kept := OldestEntries(db, limit);
      var rs := Reload(Vals(kept));
      OldestTaken(db, limit);
      PackedGood(kept, 0, rs, 1, limit);
      forall p | Refers(t, p) ensures Refers(db, p) {
        PackedFiles(kept, 0, rs, 1, limit, p);
        FileFromPrefix(ByAge(NullsFirst, db), |kept|, p);
        ByAgeFiles(NullsFirst, db, p);
      }
    } else {
      forall p | Refers(t, p) ensures Refers(db, p) {
        var i :| i in t.rows && t.rows[i].path == Some(p);
        assert db.rows[i].path == Some(p);
      }
    }
  }

  lemma OldestTaken(db: Db, limit: nat)
    requires GoodDb(db) && SizesStorable(Vals(OldestEntries(db, limit)))
    ensures var kept := OldestEntries(db, limit);
      && TakenFrom(kept, 0, Reload(Vals(kept))) && PathsApart(kept) && |kept| <= limit
      && kept == ByAge(NullsFirst, db)[..|kept|]
  {
    ByAgeRows(NullsFirst, db);
  }

  /** No row that a blind resize drops has a file. */
  ghost predicate DropsNoFile(db: Db, limit: nat, force: bool) {
    if force then forall i :: limit <= i < |ByAge(NullsFirst, db)| ==> ByAge(NullsFirst, db)[i].val.path.None?
    else forall id :: id in db.rows && id > limit ==> db.rows[id].path.None?
  }

  // A blind resize lists no file for removal. So it forgets none exactly when no dropped row has one.
  lemma BlindResizeForgetsExactly(db: Db, limit: int, force: bool)
    requires GoodDb(db) && 1 <= limit < db.max && ResizeBlind(db, limit, force).Resized?
    ensures ResizeBlind(db, limit, force).removed == []
    ensures (forall p :: Refers(db, p) ==> Refers(ResizeBlind(db, limit, force).db, p))
      <==> DropsNoFile(db, limit, force)
  {
    if force {
      BlindForcedForgetsExactly(db, limit);
    } else {
      BlindPlainForgetsExactly(db, limit);
    }
  }

  lemma BlindPlainForgetsExactly(db: Db, limit: int)
    requires GoodDb(db) && 1 <= limit < db.max
    ensures (forall p :: Refers(db, p) ==> Refers(ResizeBlind(db, limit, false).db, p))
      <==> DropsNoFile(db, limit, false)
  {
    var t := ResizeBlind(db, limit, false).db;
    forall id | id in db.rows && id > limit && db.rows[id].path.Some?
      ensures Refers(db, db.rows[id].path.value) && !Refers(t, db.rows[id].path.value)
    {
    }
    if DropsNoFile(db, limit, false) {
      forall p | Refers(db, p) ensures Refers(t, p) {
        var id :| id in db.rows && db.rows[id].path == Some(p);
        assert t.rows[id].path == Some(p);
      }
    }
  }

  lemma BlindForcedForgetsExactly(db: Db, limit: int)
    requires GoodDb(db) && 1 <= limit < db.max && ResizeBlind(db, limit, true).Resized?
    ensures (forall p :: Refers(db, p) ==> Refers(ResizeBlind(db, limit, true).db, p))
      <==> DropsNoFile(db, limit, true)
  {
    var s, kept, t := ByAge(NullsFirst, db), OldestEntries(db, limit), ResizeBlind(db, limit, true).db;
    ByAgeRows(NullsFirst, db);
    OldestTaken(db, limit);
    hide Refers, GoodDb;
    forall p ensures Refers(t, p) <==> FileFrom(kept, 0, p) {
      PackedFiles(kept, 0, Reload(Vals(kept)), 1, limit, p);
    }
    forall p ensures Refers(db, p) <==> FileFrom(s, 0, p) {
      ByAgeFiles(NullsFirst, db, p);
    }
    forall i | limit <= i < |s| && s[i].val.path.Some?
      ensures FileFrom(s, 0, s[i].val.path.value) && !FileFrom(kept, 0, s[i].val.path.value)
    {
    }
    if DropsNoFile(db, limit, true) {
      forall p | FileFrom(s, 0, p) ensures FileFrom(kept, 0, p) {
        var i :| 0 <= i < |s| && s[i].val.path == Some(p);
        assert kept[i] == s[i];
      }
    }
  }

  lemma FileFromPrefix(s: seq<Keyed<Row>>, n: nat, p: Path)
    requires n <= |s| && FileFrom(s[..n], 0, p)
    ensures FileFrom(s, 0, p)
  {
  }

  // Resizing keeps the table good, and a file is afterwards either still referred to or listed for
  // removal, never both: no kept file is deleted and no dropped one is forgotten.
  lemma ResizeGood(db: Db, limit: int, force: bool)
    requires GoodDb(db) && Resize(db, limit, force).Resized?
    ensures var r := Resize(db, limit, force);
      && GoodDb(r.db) && r.db.max == limit
      && (forall p :: Refers(db, p) <==> Refers(r.db, p) || p in r.removed)
      && (forall p :: p in r.removed ==> !Refers(r.db, p))
  {
    var r := Resize(db, limit, force);
    if db.max == 0 || limit >= db.max {
      EnsureSlotsRows(db.rows, 1, limit);
      forall p ensures Refers(db, p) <==> Refers(r.db, p) {
        if id :| id in db.rows && db.rows[id].path == Some(p) {
          assert r.db.rows[id].path == Some(p);
        }
      }
    } else if !force {
      forall p ensures Refers(db, p) <==> Refers(r.db, p) {
        if id :| id in db.rows && db.rows[id].path == Some(p) {
          assert IsUsed(db, id);
          assert r.db.rows[id].path == Some(p);
        }
      }
    } else {
      ForcedShrinkGood(db, limit);
    }
  }

  lemma ForcedShrinkGood(db: Db, limit: int)
    requires GoodDb(db) && 1 <= limit && ForcedShrink(db, limit).Resized?
    ensures var r := ForcedShrink(db, limit);
      && GoodDb(r.db)
      && (forall p :: Refers(db, p) <==> Refers(r.db, p) || p in r.removed)
      && (forall p :: p in r.removed ==> !Refers(r.db, p))
  {
    var s := ByAge(NullsFirst, db);
    var drop, rs := DropCount(|s|, limit), Reload(KeptRows(db, limit));
    KeptTaken(db, limit);
    PackedGood(s, drop, rs, 1, limit);
    hide GoodDb, Refers, TakenFrom, PathsApart;
    forall p
      ensures Refers(db, p) <==> Refers(ForcedShrink(db, limit).db, p) || p in ForcedShrink(db, limit).removed
      ensures p in ForcedShrink(db, limit).removed ==> !Refers(ForcedShrink(db, limit).db, p)
    {
      ByAgeFiles(NullsFirst, db, p);
      PackedFiles(s, drop, rs, 1, limit, p);
      FilesOfMember(DroppedRows(db, limit), p);
      DroppedFiles(s, drop, p);
    }
  }

  lemma KeptTaken(db: Db, limit: nat)
    requires GoodDb(db) && SizesStorable(KeptRows(db, limit))
    ensures var s := ByAge(NullsFirst, db);
      TakenFrom(s, DropCount(|s|, limit), Reload(KeptRows(db, limit))) && PathsApart(s)
  {
    var s := ByAge(NullsFirst, db);
    ByAgeRows(NullsFirst, db);
    assert KeptRows(db, limit) == Vals(s)[DropCount(|s|, limit)..];
  }

  lemma DroppedFiles(s: seq<Keyed<Row>>, drop: nat, p: Path)
    requires drop <= |s| && PathsApart(s)
    ensures var dropped := exists i :: 0 <= i < drop && Vals(s)[..drop][i].path == Some(p);
      && (FileFrom(s, 0, p) <==> FileFrom(s, drop, p) || dropped)
      && !(FileFrom(s, drop, p) && dropped)
  {
    var d := Vals(s)[..drop];
    forall i | 0 <= i < |s| && s[i].val.path == Some(p)
      ensures FileFrom(s, drop, p) || exists k :: 0 <= k < drop && d[k].path == Some(p)
    {
      if i < drop {
        assert d[i].path == Some(p);
      }
    }
  }
}
