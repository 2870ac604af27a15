/**
 What the two compactions do to the used rows: resequencing is an exact permutation, idempotent and a
 canonical form; the forced shrink keeps the newest rows; and the two, coded separately in C++ and in
 SQL, agree.
 */
module CompactionLaws {
  import opened Sorting
  import opened Rows
  import opened Compaction

  // ----- The collection of used rows -----

  ghost function One(r: Row): multiset<Row> {
    if r.used then multiset{r} else multiset{}
  }

  ghost function UsedRows(rows: map<int, Row>, n: int): multiset<Row>
    decreases if n < 0 then 0 else n
  {
    if n <= 0 then multiset{}
    else UsedRows(rows, n - 1) + if n in rows then One(rows[n]) else multiset{}
  }

  lemma {:induction false} UsedRowsUpdate(rows: map<int, Row>, n: int, id: int, r: Row)
    requires 1 <= id <= n && id in rows
    ensures UsedRows(rows[id := r], n) + One(rows[id]) == UsedRows(rows, n) + One(r)
    decreases n
  {
    if id < n {
      UsedRowsUpdate(rows, n - 1, id, r);
      AddBoth(UsedRows(rows[id := r], n - 1), One(rows[id]), UsedRows(rows, n - 1), One(r),
              if n in rows then One(rows[n]) else multiset{});
    } else {
      UsedRowsFrame(rows, n - 1, id, r);
      AddBoth(UsedRows(rows, n - 1), multiset{}, UsedRows(rows, n - 1), multiset{}, One(r) + One(rows[id]));
    }
  }

  lemma AddBoth<T>(a: multiset<T>, b: multiset<T>, c: multiset<T>, d: multiset<T>, more: multiset<T>)
    requires a + b == c + d
    ensures (a + more) + b == (c + more) + d
  {
    assert (a + more) + b == (a + b) + more;
  }

  lemma {:induction false} UsedRowsFrame(rows: map<int, Row>, n: int, id: int, r: Row)
    requires n < id
    ensures UsedRows(rows[id := r], n) == UsedRows(rows, n)
    decreases if n < 0 then 0 else n
  {
    if n > 0 {
      UsedRowsFrame(rows, n - 1, id, r);
    }
  }

  lemma {:induction false} ValsOfActive(c: Collation, rows: map<int, Row>, n: nat)
    ensures multiset(Vals(Active(c, rows, n))) == UsedRows(rows, n)
  {
    if n > 0 {
      ValsOfActive(c, rows, n - 1);
      var a := Active(c, rows, n - 1);
      if n in rows && rows[n].used {
        ValsAppend(a, Entry(c, n, rows[n]));
      } else {
        assert a + [] == a;
      }
    }
  }

  lemma ValsAppend<T>(s: seq<Keyed<T>>, e: Keyed<T>)
    ensures Vals(s + [e]) == Vals(s) + [e.val]
    ensures multiset(Vals(s + [e])) == multiset(Vals(s)) + multiset{e.val}
  {
  }

  lemma {:induction false} ValsOfInsert<T>(x: Keyed<T>, s: seq<Keyed<T>>)
    ensures multiset(Vals(Insert(x, s))) == multiset(Vals(s)) + multiset{x.val}
  {
    if s == [] {
      assert Vals([x]) == [x.val];
    } else if Before(s[0], x) {
      ValsOfInsert(x, s[1..]);
      assert Vals([s[0]] + Insert(x, s[1..])) == [s[0].val] + Vals(Insert(x, s[1..]));
      assert Vals(s) == [s[0].val] + Vals(s[1..]);
    } else {
      assert Vals([x] + s) == [x.val] + Vals(s);
    }
  }

  lemma {:induction false} ValsOfSort<T>(s: seq<Keyed<T>>)
    ensures multiset(Vals(Sort(s))) == multiset(Vals(s))
  {
    if s != [] {
      ValsOfSort(s[1..]);
      ValsOfInsert(s[0], Sort(s[1..]));
      assert Vals(s) == [s[0].val] + Vals(s[1..]);
    }
  }

  lemma ByAgeUsedRows(c: Collation, db: Db)
    ensures multiset(Vals(ByAge(c, db))) == UsedRows(db.rows, db.max)
  {
    ValsOfSort(Active(c, db.rows, db.max));
    ValsOfActive(c, db.rows, db.max);
  }

  // ----- Reading a packed table back -----

  ghost function PackedEntries(c: Collation, rs: seq<Row>): (r: seq<Keyed<Row>>)
    ensures |r| == |rs| && Vals(r) == rs
  {
    var r := seq(|rs|, i requires 0 <= i < |rs| => Entry(c, i + 1, rs[i]));
    assert Vals(r) == rs;
    r
  }

  ghost predicate AllUsed(rs: seq<Row>) {
    forall i :: 0 <= i < |rs| ==> rs[i].used
  }

  ghost predicate AgesRise(rs: seq<Row>) {
    forall i, j :: 0 <= i < j < |rs| ==> Age(rs[i]) <= Age(rs[j])
  }

  lemma {:induction false} ActiveOfPacked(c: Collation, rs: seq<Row>, n: nat, m: nat)
    requires AllUsed(rs) && m <= n
    ensures Active(c, Packed(rs, n), m) == PackedEntries(c, rs)[..if m <= |rs| then m else |rs|]
  {
    if m > 0 {
      ActiveOfPacked(c, rs, n, m - 1);
      if m <= |rs| {
        assert PackedEntries(c, rs)[..m] == PackedEntries(c, rs)[..m - 1] + [Entry(c, m, rs[m - 1])];
      }
    }
  }

  lemma ByAgeOfPacked(rs: seq<Row>, next: int, n: nat)
    requires AllUsed(rs) && AgesRise(rs) && |rs| <= n
    ensures Vals(ByAge(NullsAsZero, Db(Packed(rs, n), next, n))) == rs
    ensures UsedRows(Packed(rs, n), n) == multiset(rs)
  {
    ActiveOfPacked(NullsAsZero, rs, n, n);
    var e := PackedEntries(NullsAsZero, rs);
    assert e[..|rs|] == e;
    SortOfOrdered(e);
    ByAgeUsedRows(NullsAsZero, Db(Packed(rs, n), next, n));
  }

  lemma ByAgeRises(db: Db)
    ensures var rs := Vals(ByAge(NullsAsZero, db)); AllUsed(rs) && AgesRise(rs) && |rs| <= db.max
  {
    var s := ByAge(NullsAsZero, db);
    ByAgeSound(NullsAsZero, db);
    assert forall i :: 0 <= i < |s| ==> IsEntry(NullsAsZero, db.rows, db.max, s[i]);
    forall i, j | 0 <= i < j < |s| ensures Age(s[i].val) <= Age(s[j].val) {
      assert Before(s[i], s[j]);
    }
  }

  // ----- Resequencing -----

  /** `origin` lists the ids of all used rows, ordered by storing time and then id. */
  ghost predicate AgeOrigin(db: Db, origin: seq<int>) {
    && (forall i :: 0 <= i < |origin| ==> IsUsed(db, origin[i]))
    && (forall id :: IsUsed(db, id) ==> id in origin)
    && (forall i, j :: 0 <= i < j < |origin| ==>
        || Age(db.rows[origin[i]]) < Age(db.rows[origin[j]])
        || (Age(db.rows[origin[i]]) == Age(db.rows[origin[j]]) && origin[i] < origin[j]))
  }

  lemma ByAgeOrigin(c: Collation, db: Db) returns (origin: seq<int>)
    requires DomainOk(db)
    requires c == NullsFirst ==> forall id :: IsUsed(db, id) ==> db.rows[id].stored.Some?
    ensures AgeOrigin(db, origin) && |origin| == |ByAge(c, db)|
    ensures forall i :: 0 <= i < |origin| ==> Vals(ByAge(c, db))[i] == db.rows[origin[i]]
  {
    var s := ByAge(c, db);
    ByAgeSound(c, db);
    origin := seq(|s|, i requires 0 <= i < |s| => s[i].id);
    assert forall i :: 0 <= i < |s| ==> IsEntry(c, db.rows, db.max, s[i]);
    forall id | IsUsed(db, id) ensures id in origin {
      var i := ByAgeComplete(c, db, id);
      assert origin[i] == id;
    }
    forall i, j | 0 <= i < j < |origin|
      ensures || Age(db.rows[origin[i]]) < Age(db.rows[origin[j]])
              || (Age(db.rows[origin[i]]) == Age(db.rows[origin[j]]) && origin[i] < origin[j])
    {
      assert Before(s[i], s[j]);
    }
  }

  // Resequencing moves every used row, with all its columns, to slots 1..k in order of (stored_at, old
  // id), clears k+1..max and points the cursor at the first cleared slot, or at 1 when there is none.
  lemma ResequencePermutes(db: Db) returns (origin: seq<int>)
    requires DomainOk(db)
    ensures AgeOrigin(db, origin) && |origin| == |ByAge(NullsAsZero, db)| <= db.max
    ensures var r := Resequenced(db);
      && DomainOk(r) && r.max == db.max
      && (forall id :: 1 <= id <= db.max ==>
          r.rows[id] == if id <= |origin| then db.rows[origin[id - 1]] else EMPTY_ROW)
      && r.next == (if |origin| == db.max then 1 else |origin| + 1)
    ensures UsedRows(Resequenced(db).rows, db.max) == UsedRows(db.rows, db.max)
  {
    origin := ByAgeOrigin(NullsAsZero, db);
    ByAgeRises(db);
    var rs := Vals(ByAge(NullsAsZero, db));
    ByAgeOfPacked(rs, Resequenced(db).next, db.max);
    ByAgeUsedRows(NullsAsZero, db);
  }

  // Nor does a resequencing whose scan broke off lose or duplicate an entry.
  lemma PartResequencePermutes(db: Db, scanned: nat)
    requires DomainOk(db)
    ensures UsedRows(ResequencedPart(db, scanned).rows, db.max) == UsedRows(db.rows, db.max)
  {
    var n := if scanned <= db.max then scanned else db.max;
    var first, t := FirstSlots(db, n), ResequencedPart(db, scanned);
    var _ := ResequencePermutes(first);
    hide Resequenced, ByAge, UsedRows;
    UsedRowsAgree(t.rows, Resequenced(first).rows, n);
    UsedRowsAgree(first.rows, db.rows, n);
    UsedRowsExtend(t.rows, db.rows, n, db.max);
  }

  lemma {:induction false} UsedRowsExtend(a: map<int, Row>, b: map<int, Row>, n: nat, m: nat)
    requires n <= m && UsedRows(a, n) == UsedRows(b, n)
    requires forall id :: n < id <= m ==> id in a && id in b && a[id] == b[id]
    ensures UsedRows(a, m) == UsedRows(b, m)
  {
    hide One;
    if n < m {
      UsedRowsExtend(a, b, n, m - 1);
    }
  }

  lemma ResequenceIdempotent(db: Db)
    requires DomainOk(db)
    ensures Resequenced(Resequenced(db)) == Resequenced(db)
  {
    ByAgeRises(db);
    ByAgeOfPacked(Vals(ByAge(NullsAsZero, db)), Resequenced(db).next, db.max);
  }

  /** No two used rows were stored at the same time. */
  ghost predicate DistinctAges(u: multiset<Row>) {
    && (forall r :: r in u ==> u[r] == 1)
    && (forall r, q :: r in u && q in u && Age(r) == Age(q) ==> r == q)
  }

  lemma RepeatCounts<T>(s: seq<T>, i: nat, j: nat)
    requires i < j < |s| && s[i] == s[j]
    ensures multiset(s)[s[i]] >= 2
  {
    assert s == s[..j] + s[j..];
    assert s[i] == s[..j][i] && s[i] == s[j..][0];
    assert s[i] in multiset(s[..j]) && s[i] in multiset(s[j..]);
  }

  ghost predicate AgesRiseStrictly(rs: seq<Row>) {
    forall i, j :: 0 <= i < j < |rs| ==> Age(rs[i]) < Age(rs[j])
  }

  lemma StrictAges(rs: seq<Row>)
    requires AgesRise(rs) && DistinctAges(multiset(rs))
    ensures AgesRiseStrictly(rs)
  {
    forall i, j | 0 <= i < j < |rs| ensures Age(rs[i]) < Age(rs[j]) {
      assert rs[i] in multiset(rs) && rs[j] in multiset(rs);
      if rs[i] == rs[j] {
        RepeatCounts(rs, i, j);
      }
    }
  }

  lemma OldestFirst(rs: seq<Row>, r: Row)
    requires AgesRiseStrictly(rs) && r in rs
    ensures r == rs[0] || Age(rs[0]) < Age(r)
  {
  }

  lemma {:induction false} StrictUnique(rs: seq<Row>, qs: seq<Row>)
    requires AgesRiseStrictly(rs) && AgesRiseStrictly(qs)
    requires multiset(rs) == multiset(qs)
    ensures rs == qs
  {
    MultisetLength(rs, qs);
    if rs != [] {
      assert rs[0] in rs && qs[0] in qs;
      OldestFirst(rs, qs[0]);
      OldestFirst(qs, rs[0]);
      TailMultiset(rs);
      TailMultiset(qs);
      StrictUnique(rs[1..], qs[1..]);
    }
  }

  // Resequencing is a canonical form: with distinct storing times the result depends on nothing but
  // the collection of used rows.
  lemma ResequenceCanonical(a: Db, b: Db)
    requires DomainOk(a) && DomainOk(b) && a.max == b.max
    requires UsedRows(a.rows, a.max) == UsedRows(b.rows, b.max)
    requires DistinctAges(UsedRows(a.rows, a.max))
    ensures Resequenced(a) == Resequenced(b)
  {
    var ra, rb := Vals(ByAge(NullsAsZero, a)), Vals(ByAge(NullsAsZero, b));
    ByAgeRises(a);
    ByAgeRises(b);
    ByAgeUsedRows(NullsAsZero, a);
    ByAgeUsedRows(NullsAsZero, b);
    StrictAges(ra);
    StrictAges(rb);
    StrictUnique(ra, rb);
  }

  // ----- Swapping -----

  /** Both rows exist: exchange all their columns. */
  function SwapRows(db: Db, i: int, j: int): Db {
    if i in db.rows && j in db.rows
    then db.(rows := db.rows[i := db.rows[j]][j := db.rows[i]])
    else db
  }

  function SwapAll(db: Db, swaps: seq<(int, int)>): Db
    decreases |swaps|
  {
    if swaps == [] then db else SwapAll(SwapRows(db, swaps[0].0, swaps[0].1), swaps[1..])
  }

  lemma SwapUsedRows(db: Db, i: int, j: int)
    requires DomainOk(db)
    ensures DomainOk(SwapRows(db, i, j))
    ensures UsedRows(SwapRows(db, i, j).rows, db.max) == UsedRows(db.rows, db.max)
  {
    if i in db.rows && j in db.rows {
      var mid := db.rows[i := db.rows[j]];
      UsedRowsUpdate(db.rows, db.max, i, db.rows[j]);
      UsedRowsUpdate(mid, db.max, j, db.rows[i]);
      assert mid[j] == db.rows[j];
      Cancel(UsedRows(SwapRows(db, i, j).rows, db.max), UsedRows(db.rows, db.max), One(db.rows[j]));
    }
  }

  lemma Cancel<T>(a: multiset<T>, b: multiset<T>, c: multiset<T>)
    requires a + c == b + c
    ensures a == b
  {
    assert (a + c) - c == a && (b + c) - c == b;
  }

  lemma {:induction false} SwapsUndoneByResequence(db: Db, swaps: seq<(int, int)>)
    requires DomainOk(db) && DistinctAges(UsedRows(db.rows, db.max))
    ensures DomainOk(SwapAll(db, swaps))
    ensures Resequenced(SwapAll(db, swaps)) == Resequenced(db)
    decreases |swaps|
  {
    if swaps != [] {
      var mid := SwapRows(db, swaps[0].0, swaps[0].1);
      SwapUsedRows(db, swaps[0].0, swaps[0].1);
      SwapsUndoneByResequence(mid, swaps[1..]);
      ResequenceCanonical(mid, db);
    }
  }

  // ----- The forced shrink -----

  lemma CollationsAgree(db: Db)
    requires GoodDb(db)
    ensures ByAge(NullsFirst, db) == ByAge(NullsAsZero, db)
  {
    ActiveCollation(db.rows, db.max);
  }

  /** `p` is the file of one of the first `n` rows listed in `origin`. */
  ghost predicate FileBefore(db: Db, origin: seq<int>, n: nat, p: Path)
    requires n <= |origin| && forall i :: 0 <= i < |origin| ==> origin[i] in db.rows
  {
    exists i :: 0 <= i < n && db.rows[origin[i]].path == Some(p)
  }

  lemma FilesOfOrigin(db: Db, origin: seq<int>, rs: seq<Row>, p: Path)
    requires |rs| <= |origin| && forall i :: 0 <= i < |origin| ==> origin[i] in db.rows
    requires forall i :: 0 <= i < |rs| ==> rs[i] == db.rows[origin[i]]
    ensures p in FilesOf(rs) <==> FileBefore(db, origin, |rs|, p)
  {
    FilesOfMember(rs, p);
    if FileBefore(db, origin, |rs|, p) {
      var i :| 0 <= i < |rs| && db.rows[origin[i]].path == Some(p);
      assert rs[i].path == Some(p);
    }
  }

  // The forced shrink keeps exactly the newest min(k, limit) of the k used rows, in order, from slot 1
  // on; the files it lists are exactly those of the rows it drops.
  lemma ForcedShrinkKeepsNewest(db: Db, limit: int) returns (origin: seq<int>)
    requires GoodDb(db) && 1 <= limit && ForcedShrink(db, limit).Resized?
    ensures AgeOrigin(db, origin)
    ensures var r, drop := ForcedShrink(db, limit), DropCount(|origin|, limit);
      && (forall id :: 1 <= id <= limit ==>
          r.db.rows[id] == if id <= |origin| - drop then Reloaded(db.rows[origin[drop + id - 1]]) else EMPTY_ROW)
      && (forall p :: p in r.removed <==> FileBefore(db, origin, drop, p))
      && r.db.next == 1
  {
    origin := ByAgeOrigin(NullsFirst, db);
    ShrunkRows(db, limit, origin);
    ShrunkFiles(db, limit, origin);
  }

  ghost predicate OriginOf(db: Db, origin: seq<int>) {
    && |origin| == |ByAge(NullsFirst, db)|
    && forall i :: 0 <= i < |origin| ==> origin[i] in db.rows && Vals(ByAge(NullsFirst, db))[i] == db.rows[origin[i]]
  }

  lemma ShrunkFiles(db: Db, limit: int, origin: seq<int>)
    requires 1 <= limit && ForcedShrink(db, limit).Resized? && OriginOf(db, origin)
    ensures forall p ::
      p in ForcedShrink(db, limit).removed <==> FileBefore(db, origin, DropCount(|origin|, limit), p)
  {
    var drop, dropped := DropCount(|origin|, limit), DroppedRows(db, limit);
    assert dropped == Vals(ByAge(NullsFirst, db))[..drop];
    forall p ensures p in FilesOf(dropped) <==> FileBefore(db, origin, drop, p) {
      FilesOfOrigin(db, origin, dropped, p);
    }
  }

  lemma ShrunkRows(db: Db, limit: int, origin: seq<int>)
    requires 1 <= limit && ForcedShrink(db, limit).Resized? && OriginOf(db, origin)
    ensures var r, drop := ForcedShrink(db, limit).db, DropCount(|origin|, limit);
      forall id :: 1 <= id <= limit ==>
        r.rows[id] == if id <= |origin| - drop then Reloaded(db.rows[origin[drop + id - 1]]) else EMPTY_ROW
  {
    var s, drop := ByAge(NullsFirst, db), DropCount(|origin|, limit);
    hide ByAge, Reloaded, SizesStorable;
    forall id | 1 <= id <= limit
      ensures ForcedShrink(db, limit).db.rows[id] ==
        if id <= |origin| - drop then Reloaded(db.rows[origin[drop + id - 1]]) else EMPTY_ROW
    {
      ForcedShrinkAt(db, limit, id);
      if id <= |s| - drop {
        assert Vals(s)[drop + id - 1] == s[drop + id - 1].val;
      }
    }
  }

  // The SQL compaction and the C++ compaction agree: slot id of the shrunk store holds the record that
  // resequencing puts `drop` slots further on. The one difference is the 32-bit size column, so the
  // rows are equal exactly when the size fits.
  lemma CompactionsAgree(db: Db, limit: int, id: int)
    requires GoodDb(db) && 1 <= limit && ForcedShrink(db, limit).Resized?
    requires 1 <= id <= limit && id <= |ByAge(NullsAsZero, db)|
    ensures var r, q := ForcedShrink(db, limit).db, Resequenced(db);
      var drop := DropCount(|ByAge(NullsAsZero, db)|, limit);
      && id + drop in q.rows && q.rows[id + drop].used
      && r.rows[id].(size := 0) == q.rows[id + drop].(size := 0)
      && (r.rows[id] == q.rows[id + drop] <==> q.rows[id + drop].size < TWO_31)
  {
    CollationsAgree(db);
    ByAgeSound(NullsAsZero, db);
    ByAgeRows(NullsAsZero, db);
    ForcedShrinkAt(db, limit, id);
    var s := ByAge(NullsAsZero, db);
    var row := s[DropCount(|s|, limit) + id - 1].val;
    assert Vals(s)[DropCount(|s|, limit) + id - 1] == row;
    Int32Exact(row.size);
  }

  lemma ResequenceThenShrink(db: Db, limit: int)
    requires GoodDb(db) && 1 <= limit
    ensures ForcedShrink(Resequenced(db), limit) == ForcedShrink(db, limit)
  {
    var q := Resequenced(db);
    ResequencedGood(db);
    CollationsAgree(db);
    CollationsAgree(q);
    ByAgeRises(db);
    ByAgeOfPacked(Vals(ByAge(NullsAsZero, db)), q.next, db.max);
  }

  lemma PlainShrinkLosesNothing(db: Db, limit: int)
    requires GoodDb(db) && 1 <= limit < db.max
    ensures Resize(db, limit, false).Resized? <==> !UsedAbove(db, limit)
    ensures Resize(db, limit, false).Resized? ==>
      var r := Resize(db, limit, false);
      && r.removed == []
      && (forall id :: 1 <= id <= limit ==> r.db.rows[id] == db.rows[id])
      && UsedRows(r.db.rows, limit) == UsedRows(db.rows, db.max)
  {
    if !UsedAbove(db, limit) {
      var r := Resize(db, limit, false);
      UsedRowsBelow(db, limit, db.max);
      UsedRowsAgree(r.db.rows, db.rows, limit);
    }
  }

  lemma {:induction false} UsedRowsBelow(db: Db, limit: int, n: int)
    requires 0 <= limit <= n && !UsedAbove(db, limit)
    ensures UsedRows(db.rows, n) == UsedRows(db.rows, limit)
    decreases n
  {
    if limit < n {
      assert !IsUsed(db, n);
      UsedRowsBelow(db, limit, n - 1);
    }
  }

  lemma {:induction false} UsedRowsAgree(a: map<int, Row>, b: map<int, Row>, n: int)
    requires forall id :: 1 <= id <= n ==> id in a && id in b && a[id] == b[id]
    ensures UsedRows(a, n) == UsedRows(b, n)
    decreases if n < 0 then 0 else n
  {
    if n > 0 {
      UsedRowsAgree(a, b, n - 1);
    }
  }

  // ----- A shrink whose guard could not be read -----

  // If the count of used rows above the limit cannot be read, the plain shrink deletes those rows. It
  // does what it should exactly when there are none.
  lemma BlindPlainShrinkExactly(db: Db, limit: int)
    requires GoodDb(db) && 1 <= limit < db.max
    ensures ResizeBlind(db, limit, false) == Resize(db, limit, false) <==> !UsedAbove(db, limit)
    ensures UsedAbove(db, limit) ==>
      exists id :: IsUsed(db, id)
        && ResizeBlind(db, limit, false).Resized? && id !in ResizeBlind(db, limit, false).db.rows
  {
    if UsedAbove(db, limit) {
      var id :| id in db.rows && id > limit && db.rows[id].used;
      assert IsUsed(db, id) && id !in ResizeBlind(db, limit, false).db.rows;
    }
  }

  /** Not all used rows are texts stored at one and the same time. */
  ghost predicate Varied(db: Db) {
    exists i, j :: IsUsed(db, i) && IsUsed(db, j)
      && (Age(db.rows[i]) != Age(db.rows[j]) || db.rows[i].path.Some?)
  }

  // The forced shrink then keeps the oldest rows instead of the newest and removes no file. It does what
  // it should exactly if all used rows fit, if a size keeps both from going through, or if what it drops
  // has no files and reads like what it keeps. The last is so in no varied table.
  lemma BlindForcedShrinkExactly(db: Db, limit: int)
    requires GoodDb(db) && 1 <= limit < db.max
    ensures var rs := Vals(ByAge(NullsFirst, db));
      ResizeBlind(db, limit, true) == Resize(db, limit, true) <==>
        || |rs| <= limit
        || (!SizesStorable(rs[..limit]) && !SizesStorable(rs[|rs| - limit..]))
        || LikeEachOther(rs, |rs| - limit)
    ensures Varied(db) && limit < |ByAge(NullsFirst, db)| ==>
      !LikeEachOther(Vals(ByAge(NullsFirst, db)), |ByAge(NullsFirst, db)| - limit)
  {
    var rs := Vals(ByAge(NullsFirst, db));
    if |rs| <= limit {
      assert Vals(OldestEntries(db, limit)) == KeptRows(db, limit);
      assert DroppedRows(db, limit) == [];
    } else {
      assert Vals(OldestEntries(db, limit)) == rs[..limit] && KeptRows(db, limit) == rs[|rs| - limit..];
      if ResizeBlind(db, limit, true) == ForcedShrink(db, limit) && ForcedShrink(db, limit).Resized? {
        OldestAreNewest(db, limit);
      }
      if LikeEachOther(rs, |rs| - limit) {
        LikeShrinksAgree(db, limit);
        LikeIsNotVaried(db, |rs| - limit);
      }
    }
  }

  lemma LikeIsNotVaried(db: Db, drop: nat)
    requires GoodDb(db) && LikeEachOther(Vals(ByAge(NullsFirst, db)), drop)
    ensures !Varied(db)
  {
    var rs := Vals(ByAge(NullsFirst, db));
    forall i | IsUsed(db, i) ensures Age(db.rows[i]) == Age(rs[0]) && db.rows[i].path.None? {
      var k := ByAgeComplete(NullsFirst, db, i);
      CollationsAgree(db);
      ByAgeRises(db);
      AllLikeFirst(rs, drop, k);
    }
  }

  lemma {:induction false} NoFiles(rs: seq<Row>)
    ensures FilesOf(rs) == [] <==> forall i :: 0 <= i < |rs| ==> rs[i].path.None?
  {
    if rs != [] {
      NoFiles(rs[1..]);
      assert forall i :: 0 < i < |rs| ==> rs[i] == rs[1..][i - 1];
    }
  }

  lemma LikeShrinksAgree(db: Db, limit: int)
    requires 1 <= limit < db.max && limit < |ByAge(NullsFirst, db)|
    requires LikeEachOther(Vals(ByAge(NullsFirst, db)), |ByAge(NullsFirst, db)| - limit)
    ensures ResizeBlind(db, limit, true) == ForcedShrink(db, limit)
  {
    var rs := Vals(ByAge(NullsFirst, db));
    var drop := |rs| - limit;
    var oldest, newest, dropped := Vals(OldestEntries(db, limit)), KeptRows(db, limit), DroppedRows(db, limit);
    assert oldest == rs[..limit] && newest == rs[drop..] && dropped == rs[..drop];
    forall i | 0 <= i < limit ensures Reloaded(oldest[i]) == Reloaded(newest[i]) {
      assert Reloaded(rs[i + drop - drop]) == Reloaded(rs[i + drop]);
    }
    assert Reload(oldest) == Reload(newest);
    assert SizesStorable(oldest) <==> SizesStorable(newest) by {
      assert forall i :: 0 <= i < limit ==> Int32(oldest[i].size) == Reload(oldest)[i].size;
      assert forall i :: 0 <= i < limit ==> Int32(newest[i].size) == Reload(newest)[i].size;
    }
    NoFiles(dropped);
  }

  ghost predicate LikeEachOther(rs: seq<Row>, drop: nat) {
    && 0 < drop < |rs|
    && (forall i :: 0 <= i < drop ==> rs[i].path.None?)
    && (forall i :: drop <= i < |rs| ==> Reloaded(rs[i - drop]) == Reloaded(rs[i]))
  }

  // Both shrinks fill the slots alike, and no file is to be removed.
  lemma OldestAreNewest(db: Db, limit: int)
    requires 1 <= limit < db.max && limit < |ByAge(NullsFirst, db)|
    requires ResizeBlind(db, limit, true) == ForcedShrink(db, limit) && ForcedShrink(db, limit).Resized?
    ensures LikeEachOther(Vals(ByAge(NullsFirst, db)), |ByAge(NullsFirst, db)| - limit)
  {
    var rs, dropped := Vals(ByAge(NullsFirst, db)), DroppedRows(db, limit);
    var drop := |rs| - limit;
    assert dropped == rs[..drop] && FilesOf(dropped) == [];
    NoFiles(dropped);
    forall i | 0 <= i < drop ensures rs[i].path.None? {
      assert dropped[i] == rs[i];
    }
    forall i | drop <= i < |rs| ensures Reloaded(rs[i - drop]) == Reloaded(rs[i]) {
      ForcedShrinkAt(db, limit, i - drop + 1);
      assert Vals(OldestEntries(db, limit))[i - drop] == rs[i - drop];
    }
  }

  lemma {:induction false} AllLikeFirst(rs: seq<Row>, drop: nat, i: nat)
    requires AgesRise(rs) && LikeEachOther(rs, drop) && i < |rs|
    ensures Age(rs[i]) == Age(rs[0]) && rs[i].path.None?
  {
    assert Age(Reloaded(rs[0])) == Age(Reloaded(rs[drop]));
    if i >= drop {
      AllLikeFirst(rs, drop, i - drop);
      assert Reloaded(rs[i - drop]).path == Reloaded(rs[i]).path && Age(Reloaded(rs[i - drop])) == Age(Reloaded(rs[i]));
    }
  }
}
