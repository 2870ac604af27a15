/**
 What exactly resequencing forgets of a table. Times are whole seconds, so entries stored at the same
 time are ordinary, and resequencing keeps their order. The result is the same for two tables exactly
 when they list the same rows, in the same order, for each time; and a swap is undone exactly when it
 takes no entry past a different one of the same time.
 */
module Canonical {
  import opened Sorting
  import opened Rows
  import opened Compaction
  import opened CompactionLaws

  /** The rows stored at `time`. */
  function At(time: int, rs: seq<Row>): seq<Row> {
    if rs == [] then []
    else (if Age(rs[0]) == time then [rs[0]] else []) + At(time, rs[1..])
  }

  /** The used rows of slots 1..n in id order. */
  function Used(rows: map<int, Row>, n: nat): seq<Row> {
    if n == 0 then [] else Used(rows, n - 1) + if n in rows && rows[n].used then [rows[n]] else []
  }

  /** The used rows stored at `time`, in id order. */
  function StoredAt(db: Db, time: int): seq<Row> {
    At(time, Used(db.rows, db.max))
  }

  lemma {:induction false} AtAppend(time: int, a: seq<Row>, b: seq<Row>)
    ensures At(time, a + b) == At(time, a) + At(time, b)
  {
    if a == [] {
      assert a + b == b;
    } else {
      AtAppend(time, a[1..], b);
      assert (a + b)[1..] == a[1..] + b;
      Assoc(if Age(a[0]) == time then [a[0]] else [], At(time, a[1..]), At(time, b));
    }
  }

  // ----- Sorting by age is stable -----

  /** Entries of rows, in id order, keyed by storing time. */
  ghost predicate InIdOrder(s: seq<Keyed<Row>>) {
    && (forall i :: 0 <= i < |s| ==> s[i].rank == 1 && s[i].key == Age(s[i].val))
    && (forall i, j :: 0 <= i < j < |s| ==> s[i].id < s[j].id)
  }

  ghost predicate AllLater(x: Keyed<Row>, s: seq<Keyed<Row>>) {
    forall e :: e in s ==> e.rank == 1 && e.key == Age(e.val) && x.id < e.id
  }

  lemma ValsCons(x: Keyed<Row>, s: seq<Keyed<Row>>)
    ensures Vals([x] + s) == [x.val] + Vals(s)
  {
  }

  lemma {:induction false} InsertStable(time: int, x: Keyed<Row>, s: seq<Keyed<Row>>)
    requires x.rank == 1 && x.key == Age(x.val) && AllLater(x, s)
    ensures At(time, Vals(Insert(x, s))) == At(time, [x.val] + Vals(s))
  {
    if s == [] {
      assert Vals([x]) == [x.val] + Vals(s);
    } else {
      var y, rest := s[0], s[1..];
      ValsCons(y, rest);
      assert s == [y] + rest && y in s;
      if Before(y, x) {
        InsertStable(time, x, rest);
        ValsCons(y, Insert(x, rest));
        assert Insert(x, s) == [y] + Insert(x, rest) && Age(y.val) != Age(x.val);
        hide Insert, Vals, Before, AllLater;
        AtExchange(time, x.val, y.val, Vals(rest), Vals(Insert(x, rest)));
      } else {
        ValsCons(x, s);
      }
    }
  }

  // Rows of different times can be exchanged.
  lemma AtExchange(time: int, x: Row, y: Row, rest: seq<Row>, more: seq<Row>)
    requires Age(x) != Age(y) && At(time, more) == At(time, [x] + rest)
    ensures At(time, [y] + more) == At(time, [x] + ([y] + rest))
  {
    assert ([x] + rest)[1..] == rest && ([y] + more)[1..] == more && ([y] + rest)[1..] == rest;
    assert ([x] + ([y] + rest))[1..] == [y] + rest;
  }

  lemma {:induction false} SortStable(time: int, s: seq<Keyed<Row>>)
    requires InIdOrder(s)
    ensures At(time, Vals(Sort(s))) == At(time, Vals(s))
  {
    if s != [] {
      hide Insert, At, Vals;
      SortStable(time, s[1..]);
      SortPermutes(s[1..]);
      assert forall e :: e in Sort(s[1..]) ==> e in s[1..];
      InsertStable(time, s[0], Sort(s[1..]));
      ValsCons(s[0], s[1..]);
      assert s == [s[0]] + s[1..];
      AtAppend(time, [s[0].val], Vals(Sort(s[1..])));
      AtAppend(time, [s[0].val], Vals(s[1..]));
    }
  }

  lemma {:induction false} UsedIsActive(rows: map<int, Row>, n: nat)
    ensures Vals(Active(NullsAsZero, rows, n)) == Used(rows, n)
    ensures InIdOrder(Active(NullsAsZero, rows, n))
    ensures forall e :: e in Active(NullsAsZero, rows, n) ==> e.id <= n
  {
    if n > 0 {
      UsedIsActive(rows, n - 1);
      var a := Active(NullsAsZero, rows, n - 1);
      assert forall i :: 0 <= i < |a| ==> a[i] in a;
    }
  }

  lemma StoredAtByAge(db: Db, time: int)
    ensures At(time, Vals(ByAge(NullsAsZero, db))) == StoredAt(db, time)
  {
    UsedIsActive(db.rows, db.max);
    SortStable(time, Active(NullsAsZero, db.rows, db.max));
  }

  // ----- Rows in age order are given by their rows of each time -----

  lemma {:induction false} AtHead(time: int, rs: seq<Row>)
    requires AgesRise(rs) && At(time, rs) != []
    ensures rs != [] && Age(rs[0]) <= time
  {
    if Age(rs[0]) != time {
      AtHead(time, rs[1..]);
    }
  }

  lemma NothingAt(rs: seq<Row>)
    requires forall t :: At(t, rs) == []
    ensures rs == []
  {
    assert rs != [] ==> At(Age(rs[0]), rs) != [];
  }

  lemma {:induction false} SameAtSameRows(rs: seq<Row>, qs: seq<Row>)
    requires AgesRise(rs) && AgesRise(qs)
    requires forall t :: At(t, rs) == At(t, qs)
    ensures rs == qs
  {
    if rs == [] {
      NothingAt(qs);
    } else {
      var t := Age(rs[0]);
      assert At(t, rs) == [rs[0]] + At(t, rs[1..]);
      AtHead(t, qs);
      assert At(Age(qs[0]), qs) == [qs[0]] + At(Age(qs[0]), qs[1..]);
      AtHead(Age(qs[0]), rs);
      assert rs[0] == At(t, rs)[0] == At(t, qs)[0] == qs[0];
      forall u ensures At(u, rs[1..]) == At(u, qs[1..]) {
        var first := if Age(rs[0]) == u then [rs[0]] else [];
        assert At(u, rs) == first + At(u, rs[1..]) && At(u, qs) == first + At(u, qs[1..]);
        assert At(u, rs[1..]) == At(u, rs)[|first|..] && At(u, qs[1..]) == At(u, qs)[|first|..];
      }
      SameAtSameRows(rs[1..], qs[1..]);
    }
  }

  lemma PackedInjective(rs: seq<Row>, qs: seq<Row>, n: int)
    requires AllUsed(rs) && AllUsed(qs) && |rs| <= n && |qs| <= n && Packed(rs, n) == Packed(qs, n)
    ensures rs == qs
  {
    var m := Packed(rs, n);
    assert forall id :: 1 <= id <= n ==> (m[id].used <==> id <= |rs|);
    assert forall id :: 1 <= id <= n ==> (m[id].used <==> id <= |qs|);
    assert |qs| > 0 ==> m[|qs|].used;
    assert |rs| > 0 ==> m[|rs|].used;
    forall i | 0 <= i < |rs| ensures rs[i] == qs[i] {
      assert m[i + 1] == rs[i] && m[i + 1] == qs[i];
    }
  }

  // Resequencing is a canonical form for the order of the entries of each time: it brings two tables of
  // the same size to the same result exactly when they list the same rows, in the same order, for each.
  lemma ResequenceCanonicalExactly(a: Db, b: Db)
    requires a.max == b.max
    ensures Resequenced(a) == Resequenced(b) <==> forall t :: StoredAt(a, t) == StoredAt(b, t)
  {
    var rs, qs := Vals(ByAge(NullsAsZero, a)), Vals(ByAge(NullsAsZero, b));
    ByAgeRises(a);
    ByAgeRises(b);
    forall t ensures At(t, rs) == StoredAt(a, t) && At(t, qs) == StoredAt(b, t) {
      StoredAtByAge(a, t);
      StoredAtByAge(b, t);
    }
    if Resequenced(a) == Resequenced(b) {
      PackedInjective(rs, qs, a.max);
    }
    if forall t :: StoredAt(a, t) == StoredAt(b, t) {
      SameAtSameRows(rs, qs);
    }
  }

  // ----- When resequencing undoes swaps -----

  lemma SwapsUndoneExactly(db: Db, swaps: seq<(int, int)>)
    ensures Resequenced(SwapAll(db, swaps)) == Resequenced(db)
      <==> forall t :: StoredAt(SwapAll(db, swaps), t) == StoredAt(db, t)
  {
    SwapAllSize(db, swaps);
    ResequenceCanonicalExactly(SwapAll(db, swaps), db);
  }

  lemma {:induction false} SwapAllSize(db: Db, swaps: seq<(int, int)>)
    ensures SwapAll(db, swaps).max == db.max
    decreases |swaps|
  {
    if swaps != [] {
      SwapAllSize(SwapRows(db, swaps[0].0, swaps[0].1), swaps[1..]);
    }
  }

  /** The used rows of slots lo + 1..hi that were stored at `time`. */
  function Span(rows: map<int, Row>, lo: nat, hi: nat, time: int): seq<Row>
    decreases hi
  {
    if hi <= lo then [] else Span(rows, lo, hi - 1, time) + Own(rows, hi, time)
  }

  function Own(rows: map<int, Row>, id: int, time: int): seq<Row> {
    if id in rows && rows[id].used && Age(rows[id]) == time then [rows[id]] else []
  }

  lemma {:induction false} SpanIsStoredAt(rows: map<int, Row>, n: nat, time: int)
    ensures Span(rows, 0, n, time) == At(time, Used(rows, n))
  {
    if n > 0 {
      SpanIsStoredAt(rows, n - 1, time);
      var last := if n in rows && rows[n].used then [rows[n]] else [];
      AtAppend(time, Used(rows, n - 1), last);
      assert At(time, []) == [];
      assert n in rows && rows[n].used ==> At(time, [rows[n]]) == Own(rows, n, time) + [];
    }
  }

  lemma {:induction false} SpanSplit(rows: map<int, Row>, lo: nat, mid: nat, hi: nat, time: int)
    requires lo <= mid <= hi
    ensures Span(rows, lo, hi, time) == Span(rows, lo, mid, time) + Span(rows, mid, hi, time)
  {
    if mid < hi {
      SpanSplit(rows, lo, mid, hi - 1, time);
    }
  }

  lemma {:induction false} SpanFrame(a: map<int, Row>, b: map<int, Row>, lo: nat, hi: nat, time: int)
    requires forall id :: lo < id <= hi ==> (id in a <==> id in b) && (id in a ==> a[id] == b[id])
    ensures Span(a, lo, hi, time) == Span(b, lo, hi, time)
  {
    if lo < hi {
      SpanFrame(a, b, lo, hi - 1, time);
    }
  }

  ghost predicate Copies(s: seq<Row>, r: Row) {
    forall q :: q in s ==> q == r
  }

  lemma CopiesAppend(a: seq<Row>, b: seq<Row>, r: Row)
    ensures Copies(a + b, r) <==> Copies(a, r) && Copies(b, r)
  {
    assert forall q :: q in a + b <==> q in a || q in b;
  }

  ghost predicate OnlyCopies(rows: map<int, Row>, lo: int, hi: int, time: int, r: Row) {
    forall k :: lo < k <= hi && k in rows && rows[k].used && Age(rows[k]) == time ==> rows[k] == r
  }

  lemma {:induction false} SpanCopies(rows: map<int, Row>, lo: nat, hi: nat, time: int, r: Row)
    ensures Copies(Span(rows, lo, hi, time), r) <==> OnlyCopies(rows, lo, hi, time, r)
  {
    if lo < hi {
      SpanCopies(rows, lo, hi - 1, time, r);
      CopiesAppend(Span(rows, lo, hi - 1, time), Own(rows, hi, time), r);
      assert Own(rows, hi, time) != [] ==> rows[hi] in Own(rows, hi, time);
      assert Copies(Own(rows, hi, time), r) <==> OnlyCopies(rows, hi - 1, hi, time, r);
      assert OnlyCopies(rows, lo, hi, time, r) <==>
        OnlyCopies(rows, lo, hi - 1, time, r) && OnlyCopies(rows, hi - 1, hi, time, r);
    }
  }

  lemma SpanAround(rows: map<int, Row>, i: nat, j: nat, n: nat, time: int)
    requires 1 <= i < j <= n
    ensures Span(rows, 0, n, time) ==
      Span(rows, 0, i - 1, time)
        + (Own(rows, i, time) + Span(rows, i, j - 1, time) + Own(rows, j, time))
        + Span(rows, j, n, time)
  {
    SpanSplit(rows, 0, i, n, time);
    SpanSplit(rows, i, j, n, time);
    assert Span(rows, 0, i, time) == Span(rows, 0, i - 1, time) + Own(rows, i, time);
    assert Span(rows, i, j, time) == Span(rows, i, j - 1, time) + Own(rows, j, time);
    hide Span, Own;
    var first, own, mid, other, last := Span(rows, 0, i - 1, time), Own(rows, i, time),
      Span(rows, i, j - 1, time), Own(rows, j, time), Span(rows, j, n, time);
    Assoc(own, mid, other);
    Assoc(first, own, mid + other + last);
    Assoc(own, mid + other, last);
    Assoc(first, own + mid + other, last);
  }

  // Moving a row past others leaves the list as it is exactly when they are all the same.
  lemma {:induction false} PastOthers(r: Row, s: seq<Row>)
    ensures [r] + s == s + [r] <==> Copies(s, r)
  {
    if s != [] {
      var first, rest := s[0], s[1..];
      PastOthers(r, rest);
      assert s == [first] + rest;
      CopiesAppend([first], rest, r);
      assert Copies([first], r) <==> first == r by { assert first in [first]; }
      assert [r] + s == [r] + ([first] + rest) && s + [r] == [first] + (rest + [r]);
      if [r] + s == s + [r] {
        assert first == (s + [r])[0] == ([r] + s)[0];
        assert rest + [r] == (s + [r])[1..] == ([r] + s)[1..] == [first] + rest;
      }
    }
  }

  // Exchanging at most one row on each side of a list, two different rows if there are two.
  lemma AroundOthers(own: seq<Row>, mid: seq<Row>, other: seq<Row>, a: Row, b: Row)
    requires (own == [] || own == [a]) && (other == [] || other == [b]) && a != b
    ensures other + mid + own == own + mid + other <==>
      (own == [] || other == []) && (own != [] ==> Copies(mid, a)) && (other != [] ==> Copies(mid, b))
  {
    if own != [] && other != [] {
      assert (other + mid + own)[0] == b && (own + mid + other)[0] == a;
    } else if own != [] {
      assert other + mid + own == mid + [a] && own + mid + other == [a] + mid;
      PastOthers(a, mid);
    } else if other != [] {
      assert other + mid + own == [b] + mid && own + mid + other == mid + [b];
      PastOthers(b, mid);
    }
  }

  lemma Sandwich(p: seq<Row>, a: seq<Row>, b: seq<Row>, s: seq<Row>)
    requires |a| == |b|
    ensures p + a + s == p + b + s <==> a == b
  {
    assert a == (p + a + s)[|p|..|p| + |a|];
    assert b == (p + b + s)[|p|..|p| + |b|];
  }

  /** Between slots `i` and `j` there are only copies of `r` among the entries as old as `r`, if it is used. */
  ghost predicate PassesOnlyCopies(db: Db, r: Row, i: int, j: int) {
    r.used ==> OnlyCopies(db.rows, i, j - 1, Age(r), r)
  }

  /** The swap takes no entry past a different one of the same time. */
  ghost predicate SwapForgotten(db: Db, i: int, j: int)
    requires i in db.rows && j in db.rows
  {
    var a, b := db.rows[i], db.rows[j];
    || a == b
    || (!(a.used && b.used && Age(a) == Age(b)) && PassesOnlyCopies(db, a, i, j) && PassesOnlyCopies(db, b, i, j))
  }

  lemma StoredAtParts(db: Db, i: nat, j: nat, time: int)
    requires 1 <= i < j <= db.max
    ensures StoredAt(db, time) ==
      Span(db.rows, 0, i - 1, time)
        + (Own(db.rows, i, time) + Span(db.rows, i, j - 1, time) + Own(db.rows, j, time))
        + Span(db.rows, j, db.max, time)
  {
    SpanIsStoredAt(db.rows, db.max, time);
    SpanAround(db.rows, i, j, db.max, time);
  }

  lemma SwappedParts(db: Db, i: nat, j: nat, time: int)
    requires DomainOk(db) && 1 <= i < j <= db.max
    ensures StoredAt(SwapRows(db, i, j), time) ==
      Span(db.rows, 0, i - 1, time)
        + (Own(db.rows, j, time) + Span(db.rows, i, j - 1, time) + Own(db.rows, i, time))
        + Span(db.rows, j, db.max, time)
  {
    var t := SwapRows(db, i, j);
    assert t.max == db.max && forall id :: id in t.rows <==> id in db.rows;
    assert forall id :: id in db.rows && id != i && id != j ==> t.rows[id] == db.rows[id];
    assert Own(t.rows, i, time) == Own(db.rows, j, time) && Own(t.rows, j, time) == Own(db.rows, i, time);
    hide SwapRows, Span, Own, StoredAt;
    SpanFrame(t.rows, db.rows, 0, i - 1, time);
    SpanFrame(t.rows, db.rows, i, j - 1, time);
    SpanFrame(t.rows, db.rows, j, db.max, time);
    StoredAtParts(t, i, j, time);
  }

  lemma SwapStoredAt(db: Db, i: nat, j: nat, time: int)
    requires DomainOk(db) && 1 <= i < j <= db.max
    ensures var own, other, mid := Own(db.rows, i, time), Own(db.rows, j, time), Span(db.rows, i, j - 1, time);
      StoredAt(SwapRows(db, i, j), time) == StoredAt(db, time) <==> other + mid + own == own + mid + other
  {
    hide *;
    var own, other, mid := Own(db.rows, i, time), Own(db.rows, j, time), Span(db.rows, i, j - 1, time);
    StoredAtParts(db, i, j, time);
    SwappedParts(db, i, j, time);
    Sandwich(Span(db.rows, 0, i - 1, time), other + mid + own, own + mid + other, Span(db.rows, j, db.max, time));
  }

  /** What the swap does to the entries of one time. */
  lemma SwapAtTime(db: Db, i: nat, j: nat, time: int)
    requires DomainOk(db) && 1 <= i < j <= db.max && db.rows[i] != db.rows[j]
    ensures var a, b := db.rows[i], db.rows[j];
      var atA, atB := a.used && Age(a) == time, b.used && Age(b) == time;
      StoredAt(SwapRows(db, i, j), time) == StoredAt(db, time) <==>
        && !(atA && atB)
        && (atA ==> OnlyCopies(db.rows, i, j - 1, time, a))
        && (atB ==> OnlyCopies(db.rows, i, j - 1, time, b))
  {
    var a, b, mid := db.rows[i], db.rows[j], Span(db.rows, i, j - 1, time);
    var own, other := Own(db.rows, i, time), Own(db.rows, j, time);
    SwapStoredAt(db, i, j, time);
    hide StoredAt, SwapRows;
    AroundOthers(own, mid, other, a, b);
    SpanCopies(db.rows, i, j - 1, time, a);
    SpanCopies(db.rows, i, j - 1, time, b);
  }

  // Resequencing undoes a swap of two slots exactly when neither entry passed a different one stored at
  // the same time; such a pair comes out in the opposite order.
  lemma SwapUndoneExactly(db: Db, i: nat, j: nat)
    requires DomainOk(db) && 1 <= i < j <= db.max
    ensures Resequenced(SwapRows(db, i, j)) == Resequenced(db) <==> SwapForgotten(db, i, j)
  {
    var t, a, b := SwapRows(db, i, j), db.rows[i], db.rows[j];
    ResequenceCanonicalExactly(t, db);
    if a == b {
      assert t.rows == db.rows;
    } else {
      hide StoredAt, SwapRows, Resequenced, OnlyCopies;
      forall time
        ensures var atA, atB := a.used && Age(a) == time, b.used && Age(b) == time;
          StoredAt(t, time) == StoredAt(db, time) <==>
            && !(atA && atB)
            && (atA ==> OnlyCopies(db.rows, i, j - 1, time, a))
            && (atB ==> OnlyCopies(db.rows, i, j - 1, time, b))
      {
        SwapAtTime(db, i, j, time);
      }
      if forall time :: StoredAt(t, time) == StoredAt(db, time) {
        assert StoredAt(t, Age(a)) == StoredAt(db, Age(a)) && StoredAt(t, Age(b)) == StoredAt(db, Age(b));
      }
    }
  }

  // Two texts stored in the same second come back in the swapped order.
  lemma TiedSwapStays(db: Db)
    requires db == Db(map[1 := TextRow("a", 5, 5), 2 := TextRow("b", 5, 5)], 1, 2)
    ensures GoodDb(db) && Resequenced(SwapRows(db, 1, 2)) != Resequenced(db)
  {
    assert TextRow("a", 5, 5).content != TextRow("b", 5, 5).content by {
      assert CString("a") == "a" && CString("b") == "b";
    }
    SwapUndoneExactly(db, 1, 2);
  }
}
