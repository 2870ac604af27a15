/**
 Views of the table (sqlite/repository/entry_repository.cpp): the latest entry, filtered lists and
 counts. SELECT .. ORDER BY is `Sort` on the sort column and id, backwards if descending.
 */
module EntryRepository {
  import opened Sorting
  import opened Rows
  import opened Compaction
  import opened CompactionLaws
  import opened StoreMachine
  import opened AgeOrder
  import opened Refinement
  import opened Backend

  // ----- The latest entry -----

  /** ORDER BY stored_at DESC, id DESC LIMIT 1 over the used rows */
  function Latest(db: Db): Option<int> {
    var s := ByAge(NullsFirst, db);
    if s == [] then None else Some(s[|s| - 1].id)
  }

  method LatestId(b: Store) returns (id: Option<int>)
    modifies b`faulty
    ensures id.Some? ==> id == Latest(b.Visible())
    ensures old(b.faulty) ==> b.faulty
    ensures !b.faulty ==> id == Latest(b.Visible())
  {
    var ok := b.Query();
    if ok { ok := b.Query(); }
    id := if ok then Latest(b.Visible()) else None;
  }

  /** Ordered by storing time and then id, `i` does not come after `j`. */
  ghost predicate NotNewer(db: Db, i: int, j: int) {
    && IsUsed(db, i) && IsUsed(db, j)
    && (Age(db.rows[i]) < Age(db.rows[j]) || (Age(db.rows[i]) == Age(db.rows[j]) && i <= j))
  }

  lemma LatestIsNewest(db: Db)
    requires GoodDb(db)
    ensures Latest(db) == None <==> forall id :: !IsUsed(db, id)
    ensures Latest(db).Some? ==> IsUsed(db, Latest(db).value)
    ensures Latest(db).Some? ==> forall id :: IsUsed(db, id) ==> NotNewer(db, id, Latest(db).value)
  {
    var s := ByAge(NullsFirst, db);
    ByAgeSound(NullsFirst, db);
    if s != [] {
      assert IsEntry(NullsFirst, db.rows, db.max, s[|s| - 1]);
      assert IsUsed(db, s[|s| - 1].id);
    }
    forall id | IsUsed(db, id)
      ensures s != []
      ensures NotNewer(db, id, s[|s| - 1].id)
    {
      var i := ByAgeComplete(NullsFirst, db, id);
      if i < |s| - 1 {
        assert Before(s[i], s[|s| - 1]);
      }
    }
  }

  // After a resequence the slot behind the cursor is the latest entry, even when times are tied.
  lemma LatestAfterResequence(db: Db)
    requires GoodDb(db) && Latest(db).Some?
    ensures PreviousSlot(Resequenced(db)) == Latest(Resequenced(db))
  {
    ResequencedGood(db);
    CollationsAgree(db);
    ByAgeRises(db);
    LatestOfPacked(Resequenced(db), Vals(ByAge(NullsAsZero, db)));
  }

  /** Used rows with rising ages in slots 1, 2, ..: the last of them is the latest. */
  lemma LatestOfPacked(t: Db, rs: seq<Row>)
    requires t.rows == Packed(rs, t.max) && GoodDb(t) && 0 < |rs| <= t.max && AllUsed(rs) && AgesRise(rs)
    ensures Latest(t) == Some(|rs|)
  {
    LatestIsNewest(t);
    assert IsUsed(t, |rs|);
    var m := Latest(t).value;
    assert m <= |rs| && t.rows[m] == rs[m - 1] && t.rows[|rs|] == rs[|rs| - 1];
  }

  ghost predicate SameAges(a: Db, b: Db) {
    && (forall id :: IsUsed(a, id) <==> IsUsed(b, id))
    && (forall id :: IsUsed(a, id) ==> Age(a.rows[id]) == Age(b.rows[id]))
  }

  lemma SameAgesSameLatest(a: Db, b: Db)
    requires GoodDb(a) && GoodDb(b) && SameAges(a, b)
    ensures Latest(a) == Latest(b)
  {
    LatestIsNewest(a);
    LatestIsNewest(b);
  }

  lemma UpdateKeepsAges(s: Snapshot, op: Op)
    requires op.UpdateText? || op.UpdateFile? || op.PatchText? || op.PatchFile?
    ensures SameAges(s.db, Apply(s, op).db)
  {
  }

  // Updating an entry in place does not make it, or any other entry, the latest.
  lemma UpdateKeepsLatest(s: Snapshot, op: Op)
    requires Inv(s) && Fresh(s, op)
    requires op.UpdateText? || op.UpdateFile? || op.PatchText? || op.PatchFile?
    ensures Latest(Apply(s, op).db) == Latest(s.db)
  {
    ApplyKeepsInv(s, op);
    UpdateKeepsAges(s, op);
    SameAgesSameLatest(s.db, Apply(s, op).db);
  }

  // In age order the slot behind the cursor, if used, holds an entry of greatest age. Deleting it works
  // only within the time limit, and an immediate repeat deletes nothing, whatever its limit.
  lemma DeleteLatestTakesNewest(s: Snapshot, maxAge: int, now: int, maxAge': int, now': int)
    requires GoodDb(s.db) && AgeOrdered(s.db) && Accepts(s, DeleteLatest(maxAge, now))
    ensures var target, t := PreviousSlot(s.db).value, Apply(s, DeleteLatest(maxAge, now));
      && IsUsed(s.db, target) && now - Age(s.db.rows[target]) <= maxAge
      && (forall id :: IsUsed(s.db, id) ==> Age(s.db.rows[id]) <= Age(s.db.rows[target]))
      && !IsUsed(t.db, target)
      && Apply(t, DeleteLatest(maxAge', now')) == t
  {
  }

  // So over whole runs as long as the order is not broken.
  lemma DeleteLatestInRun(states: seq<Snapshot>, ops: seq<Op>, clocks: seq<int>, m: nat, k: nat, again: Op)
    requires ClockedRun(states, ops, clocks) && k < |ops| && UnbrokenSince(states, ops, m, k)
    requires ops[k].DeleteLatest? && Accepts(states[k], ops[k]) && again.DeleteLatest?
    ensures var db, t := states[k].db, Apply(states[k], ops[k]);
      var target := PreviousSlot(db).value;
      && IsUsed(db, target) && clocks[k + 1] - Age(db.rows[target]) <= ops[k].maxAge
      && (forall id :: IsUsed(db, id) ==> Age(db.rows[id]) <= Age(db.rows[target]))
      && !IsUsed(t.db, target)
      && Apply(t, again) == t
  {
    RunStoredBy(states, ops, clocks, k);
    RunKeepsAge(states, ops, clocks, m, k);
    assert ClockedStep(ops[k], clocks[k], clocks[k + 1]);
    DeleteLatestTakesNewest(states[k], ops[k].maxAge, ops[k].now, again.maxAge, again.now);
  }

  // DELETE without an id is documented to delete the latest record. It looks behind the cursor instead,
  // which is the latest record exactly when that slot is used and no higher slot holds one as new.
  lemma DeletesLatestExactly(db: Db)
    requires GoodDb(db) && AgeOrdered(db) && db.max > 0
    ensures var prev := PreviousSlot(db).value;
      PreviousSlot(db) == Latest(db) <==>
        IsUsed(db, prev) && forall id :: IsUsed(db, id) && id > prev ==> Age(db.rows[id]) != Age(db.rows[prev])
  {
    var prev := PreviousSlot(db).value;
    LatestIsNewest(db);
    if IsUsed(db, prev) {
      forall id | IsUsed(db, id) ensures Age(db.rows[id]) <= Age(db.rows[prev]) {
        assert RingPos(db, id) <= RingPos(db, prev);
      }
    }
  }

  // It fails after every forced shrink that leaves a slot free: the cursor is back at 1, the slot
  // behind it is the empty last one, and the latest record cannot be deleted this way, however new.
  lemma ForcedShrinkHidesLatest(db: Db, limit: int, maxAge: int, now: int)
    requires GoodDb(db) && 1 <= limit && ForcedShrink(db, limit).Resized?
    requires 0 < |ByAge(NullsFirst, db)| < limit
    ensures var t := ForcedShrink(db, limit).db;
      && Latest(t) == Some(|ByAge(NullsFirst, db)|) && PreviousSlot(t) == Some(limit)
      && !LatestDeletable(t, maxAge, now)
  {
    var rs := KeptRows(db, limit);
    ForcedShrinkGood(db, limit);
    CollationsAgree(db);
    ByAgeRises(db);
    assert rs == Vals(ByAge(NullsAsZero, db));
    LatestOfPacked(ForcedShrink(db, limit).db, Reload(rs));
  }

  // ----- Filtered lists and counts -----

  datatype SortField = ById | ByStoredAt | ByUpdatedAt

  datatype Filters = Filters(
    includeInactive: bool, isFile: Option<int>, mime: Option<string>, filename: Option<string>,
    sort: SortField, desc: bool)

  /** The WHERE clause; a comparison with NULL is not true. */
  predicate Matches(f: Filters, row: Row) {
    && (f.includeInactive || row.used)
    && (f.isFile.None? || (row.media.Some? && (f.isFile.value == 1 <==> row.media.value != TextMedia)))
    && (f.mime.None? || row.mime == Some(CString(f.mime.value)))
    && (f.filename.None? || row.filename == Some(CString(f.filename.value)))
  }

  function OrderKey(sort: SortField, id: int, row: Row): Keyed<Row> {
    match sort
    case ById => Keyed(1, id, id, row)
    case ByStoredAt => Keyed(if row.stored.None? then 0 else 1, row.stored.GetOr(0), id, row)
    case ByUpdatedAt => Keyed(if row.updated.None? then 0 else 1, row.updated.GetOr(0), id, row)
  }

  function Matching(f: Filters, rows: map<int, Row>, n: nat): seq<Keyed<Row>> {
    if n == 0 then []
    else Matching(f, rows, n - 1) + if n in rows && Matches(f, rows[n]) then [OrderKey(f.sort, n, rows[n])] else []
  }

  function Reverse<T>(s: seq<T>): (r: seq<T>)
    ensures |r| == |s|
    ensures forall i :: 0 <= i < |s| ==> r[i] == s[|s| - 1 - i]
  {
    if s == [] then [] else Reverse(s[1..]) + [s[0]]
  }

  function Selected(f: Filters, db: Db): seq<Keyed<Row>> {
    var s := Sort(Matching(f, db.rows, db.max));
    if f.desc then Reverse(s) else s
  }

  /** LIMIT: a negative limit is none. */
  function Limited<T>(s: seq<T>, limit: int): seq<T> {
    if 0 <= limit < |s| then s[..limit] else s
  }

  function RecordOf(e: Keyed<Row>): KaringRecord {
    LoadedRecord(e.id, e.val)
  }

  function Listing(f: Filters, db: Db, limit: int): (r: seq<KaringRecord>)
    ensures |r| == |Limited(Selected(f, db), limit)|
  {
    var s := Limited(Selected(f, db), limit);
    seq(|s|, i requires 0 <= i < |s| => RecordOf(s[i]))
  }

  // A failing step looks like the end of the result, so the list is then a prefix.
  method ListFiltered(b: Store, limit: int, f: Filters) returns (out: seq<KaringRecord>)
    modifies b`faulty
    ensures out <= Listing(f, b.Visible(), limit)
    ensures old(b.faulty) ==> b.faulty
    ensures !b.faulty ==> out == Listing(f, b.Visible(), limit)
  {
    out := [];
    var ok := b.Query();
    if !ok { return; }
    var cursor := Limited(Selected(f, b.Visible()), limit);
    ghost var all := Listing(f, b.Visible(), limit);
    for i := 0 to |cursor|
      modifies b`faulty
      invariant out == all[..i]
      invariant old(b.faulty) ==> b.faulty
    {
      ok := b.Query();
      if !ok { return; }
      out := out + [RecordOf(cursor[i])];
    }
    assert all[..|cursor|] == all;
  }

  method CountFiltered(b: Store, f: Filters) returns (count: nat)
    modifies b`faulty
    ensures count in {0, |Selected(f, b.Visible())|}
    ensures old(b.faulty) ==> b.faulty
    ensures !b.faulty ==> count == |Selected(f, b.Visible())|
  {
    var ok := b.Query();
    if ok { ok := b.Query(); }
    count := if ok then |Matching(f, b.Visible().rows, b.Visible().max)| else 0;
  }

  ghost predicate IsMatch(f: Filters, db: Db, e: Keyed<Row>) {
    e.id in db.rows && Matches(f, db.rows[e.id]) && e == OrderKey(f.sort, e.id, db.rows[e.id])
  }

  lemma {:induction false} MatchingSound(f: Filters, db: Db, n: nat)
    ensures forall i :: 0 <= i < |Matching(f, db.rows, n)| ==>
      IsMatch(f, db, Matching(f, db.rows, n)[i]) && 1 <= Matching(f, db.rows, n)[i].id <= n
    ensures DistinctIds(Matching(f, db.rows, n))
  {
    if n > 0 {
      MatchingSound(f, db, n - 1);
    }
  }

  lemma {:induction false} MatchingComplete(f: Filters, db: Db, n: nat, id: int)
    requires 1 <= id <= n && id in db.rows && Matches(f, db.rows[id])
    ensures OrderKey(f.sort, id, db.rows[id]) in Matching(f, db.rows, n)
  {
    if id < n {
      MatchingComplete(f, db, n - 1, id);
    }
  }

  /** `a` is listed before `b`. */
  ghost predicate Precedes(f: Filters, a: Keyed<Row>, b: Keyed<Row>) {
    if f.desc then Before(b, a) else Before(a, b)
  }

  lemma SelectedSound(f: Filters, db: Db)
    ensures forall i :: 0 <= i < |Selected(f, db)| ==> IsMatch(f, db, Selected(f, db)[i])
    ensures forall i, j :: 0 <= i < j < |Selected(f, db)| ==> Precedes(f, Selected(f, db)[i], Selected(f, db)[j])
  {
    var m := Matching(f, db.rows, db.max);
    MatchingSound(f, db, db.max);
    SortPermutes(m);
    SortOrders(m);
    forall i | 0 <= i < |m| ensures IsMatch(f, db, Sort(m)[i]) {
      assert Sort(m)[i] in multiset(Sort(m));
    }
  }

  // A list holds min(limit, count) records, each of a matching row, in strict (column, id) order; and a
  // matching row that is not listed comes after every listed one.
  lemma ListingIsTopOfMatches(f: Filters, db: Db, limit: int, id: int)
    requires DomainOk(db)
    ensures var s, all := Limited(Selected(f, db), limit), Selected(f, db);
      && |Listing(f, db, limit)| == (if 0 <= limit < |all| then limit else |all|)
      && (forall i :: 0 <= i < |s| ==> IsMatch(f, db, s[i]) && Listing(f, db, limit)[i] == RecordOf(s[i]))
      && (forall i, j :: 0 <= i < j < |s| ==> Precedes(f, s[i], s[j]))
      && (id in db.rows && Matches(f, db.rows[id]) ==> ListedOrLater(f, s, limit, OrderKey(f.sort, id, db.rows[id])))
  {
    SelectedSound(f, db);
    if id in db.rows && Matches(f, db.rows[id]) {
      var all := Selected(f, db);
      var p := SelectedComplete(f, db, id);
      if p < |Limited(all, limit)| {
        assert Limited(all, limit)[p] == all[p];
      }
    }
  }

  ghost predicate ListedOrLater(f: Filters, s: seq<Keyed<Row>>, limit: int, e: Keyed<Row>) {
    e in s || (|s| == limit && forall i :: 0 <= i < |s| ==> Precedes(f, s[i], e))
  }

  lemma SelectedComplete(f: Filters, db: Db, id: int) returns (p: nat)
    requires DomainOk(db) && id in db.rows && Matches(f, db.rows[id])
    ensures p < |Selected(f, db)| && Selected(f, db)[p] == OrderKey(f.sort, id, db.rows[id])
  {
    var m, e := Matching(f, db.rows, db.max), OrderKey(f.sort, id, db.rows[id]);
    MatchingComplete(f, db, db.max, id);
    hide Matching, OrderKey, Matches, Sort;
    SortPermutes(m);
    var k :| 0 <= k < |Sort(m)| && Sort(m)[k] == e;
    p := if f.desc then |m| - 1 - k else k;
  }

  // ----- Lists in terms of the records -----

  /** The record is what the filters ask for. */
  ghost predicate Fits(f: Filters, r: KaringRecord) {
    && (f.isFile.Some? ==> (r.isFile <==> f.isFile.value == 1))
    && (f.mime.Some? ==> r.mime == CString(f.mime.value))
    && (f.filename.Some? ==> r.filename == CString(f.filename.value))
  }

  /** The position of a record in ascending order. Empty slots, which have no times, come first. */
  function Position(sort: SortField, r: KaringRecord): (int, int) {
    match sort
    case ById => (1, r.id)
    case ByStoredAt => (if r.updatedAt.None? then 0 else 1, r.createdAt)
    case ByUpdatedAt => (if r.updatedAt.None? then 0 else 1, r.updatedAt.GetOr(0))
  }

  ghost predicate Ascending(sort: SortField, a: KaringRecord, b: KaringRecord) {
    var p, q := Position(sort, a), Position(sort, b);
    p.0 < q.0 || (p.0 == q.0 && (p.1 < q.1 || (p.1 == q.1 && a.id < b.id)))
  }

  lemma KeyIsPosition(f: Filters, db: Db, a: Keyed<Row>, b: Keyed<Row>)
    requires RowsOk(db) && IsMatch(f, db, a) && IsMatch(f, db, b)
    ensures Before(a, b) <==> Ascending(f.sort, RecordOf(a), RecordOf(b))
  {
  }

  // Every record of a list fits the filters and is what get_by_id gives, unless empty slots are asked for
  // too; and the records stand in the order asked for.
  lemma ListingFits(f: Filters, s: Snapshot, limit: int)
    requires GoodDb(s.db)
    ensures var out := Listing(f, s.db, limit);
      && (forall i :: 0 <= i < |out| ==> Fits(f, out[i]))
      && (forall i :: 0 <= i < |out| ==>
            || GetById(s, out[i].id) == Some(out[i])
            || (f.includeInactive && out[i] == KaringRecord(out[i].id, false, "", "", "", 0, None)))
      && (forall i, j :: 0 <= i < j < |out| ==>
            if f.desc then Ascending(f.sort, out[j], out[i]) else Ascending(f.sort, out[i], out[j]))
  {
    var all, out := Selected(f, s.db), Listing(f, s.db, limit);
    SelectedSound(f, s.db);
    assert forall i :: 0 <= i < |out| ==> out[i] == RecordOf(all[i]) && IsMatch(f, s.db, all[i]);
    forall i, j | 0 <= i < j < |out|
      ensures if f.desc then Ascending(f.sort, out[j], out[i]) else Ascending(f.sort, out[i], out[j])
    {
      hide IsMatch, Ascending, Before, RecordOf;
      assert Precedes(f, all[i], all[j]);
      KeyIsPosition(f, s.db, all[i], all[j]);
      KeyIsPosition(f, s.db, all[j], all[i]);
    }
  }

  // Without a limit an entry is listed, and so counted, exactly if its record fits; except that a text has
  // no filename at all and is not found under an empty one, although its record shows that.
  lemma FittingAreListed(f: Filters, s: Snapshot, id: int)
    requires GoodDb(s.db) && GetById(s, id).Some?
    ensures GetById(s, id).value in Listing(f, s.db, -1) <==>
      Fits(f, GetById(s, id).value) && (f.filename.Some? ==> s.db.rows[id].source == Some(FileUpload))
    ensures |Listing(f, s.db, -1)| == |Selected(f, s.db)|
  {
    var r, all, out := GetById(s, id).value, Selected(f, s.db), Listing(f, s.db, -1);
    MatchesIfFits(f, s, id);
    if Matches(f, s.db.rows[id]) {
      var p := SelectedComplete(f, s.db, id);
      assert out[p] == RecordOf(all[p]);
    }
    if r in out {
      var i :| 0 <= i < |out| && out[i] == r;
      SelectedSound(f, s.db);
      assert IsMatch(f, s.db, all[i]) && out[i] == RecordOf(all[i]);
    }
  }

  lemma MatchesIfFits(f: Filters, s: Snapshot, id: int)
    requires GoodDb(s.db) && GetById(s, id).Some?
    ensures Matches(f, s.db.rows[id]) <==>
      Fits(f, GetById(s, id).value) && (f.filename.Some? ==> s.db.rows[id].source == Some(FileUpload))
  {
  }

  // Without filters, and empty slots included, every slot is listed.
  lemma EverySlotListed(s: Snapshot, sort: SortField, desc: bool, id: int) returns (i: nat)
    requires GoodDb(s.db) && 1 <= id <= s.db.max
    ensures var out := Listing(Filters(true, None, None, None, sort, desc), s.db, -1);
      i < |out| && out[i].id == id
  {
    i := SelectedComplete(Filters(true, None, None, None, sort, desc), s.db, id);
  }

  // ----- Text and file entries -----

  const ACTIVE := Filters(false, None, None, None, ByStoredAt, true)

  lemma {:induction false} CountsPartition(f: Filters, db: Db, n: nat)
    requires RowsOk(db) && !f.includeInactive
    ensures |Matching(f.(isFile := Some(0)), db.rows, n)| + |Matching(f.(isFile := Some(1)), db.rows, n)|
         == |Matching(f.(isFile := None), db.rows, n)|
  {
    if n > 0 {
      CountsPartition(f, db, n - 1);
    }
  }

  // The text and the file entries make up the active ones, whatever else is filtered on.
  lemma TextAndFilePartition(f: Filters, db: Db)
    requires GoodDb(db) && !f.includeInactive
    ensures |Selected(f.(isFile := Some(0)), db)| + |Selected(f.(isFile := Some(1)), db)|
         == |Selected(f.(isFile := None), db)|
  {
    CountsPartition(f, db, db.max);
  }

  lemma {:induction false} MatchingActive(db: Db, n: nat)
    ensures |Matching(ACTIVE, db.rows, n)| == |Active(NullsFirst, db.rows, n)|
  {
    if n > 0 {
      MatchingActive(db, n - 1);
    }
  }

  // What count_active counts are the used rows.
  lemma ActiveCount(db: Db)
    ensures |Selected(ACTIVE, db)| == |UsedRows(db.rows, db.max)|
  {
    MatchingActive(db, db.max);
    ByAgeUsedRows(NullsFirst, db);
    assert |multiset(Vals(ByAge(NullsFirst, db)))| == |Vals(ByAge(NullsFirst, db))|;
  }
}
