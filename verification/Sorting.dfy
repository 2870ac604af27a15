/**
 Sorting of keyed values. Rows are ordered by a column and then by id; the column may be NULL, so a
 key carries a `rank` in front of it. Ids are distinct, hence the order is strict and total and a
 sorted arrangement of a given collection is unique: any correct sort computes `Sort`.
 */
module Sorting {

  datatype Keyed<T> = Keyed(rank: int, key: int, id: int, val: T)

  predicate Before<T>(a: Keyed<T>, b: Keyed<T>) {
    || a.rank < b.rank
    || (a.rank == b.rank && a.key < b.key)
    || (a.rank == b.rank && a.key == b.key && a.id < b.id)
  }

  ghost predicate Ordered<T>(s: seq<Keyed<T>>) {
    forall i, j :: 0 <= i < j < |s| ==> Before(s[i], s[j])
  }

  ghost predicate DistinctIds<T>(s: seq<Keyed<T>>) {
    forall i, j :: 0 <= i < j < |s| ==> s[i].id != s[j].id
  }

  function Insert<T>(x: Keyed<T>, s: seq<Keyed<T>>): (r: seq<Keyed<T>>)
    ensures |r| == |s| + 1
  {
    if s == [] then [x]
    else if Before(s[0], x) then [s[0]] + Insert(x, s[1..])
    else [x] + s
  }

  function Sort<T>(s: seq<Keyed<T>>): (r: seq<Keyed<T>>)
    ensures |r| == |s|
  {
    if s == [] then [] else Insert(s[0], Sort(s[1..]))
  }

  function Vals<T>(s: seq<Keyed<T>>): (r: seq<T>)
    ensures |r| == |s|
    ensures forall i :: 0 <= i < |s| ==> r[i] == s[i].val
  {
    seq(|s|, i requires 0 <= i < |s| => s[i].val)
  }

  // ----- Sort rearranges its input -----

  lemma {:induction false} InsertPermutes<T>(x: Keyed<T>, s: seq<Keyed<T>>)
    ensures multiset(Insert(x, s)) == multiset(s) + multiset{x}
  {
    if s == [] {
    } else {
      assert s == [s[0]] + s[1..];
      if Before(s[0], x) {
        InsertPermutes(x, s[1..]);
      }
    }
  }

  lemma {:induction false} SortPermutes<T>(s: seq<Keyed<T>>)
    ensures multiset(Sort(s)) == multiset(s)
    ensures forall e :: e in Sort(s) <==> e in s
  {
    if s == [] {
    } else {
      SortPermutes(s[1..]);
      InsertPermutes(s[0], Sort(s[1..]));
      assert s == [s[0]] + s[1..];
    }
    assert forall e :: e in Sort(s) <==> e in multiset(Sort(s));
  }

  // ----- Sort orders its input -----

  lemma {:induction false} InsertOrders<T>(x: Keyed<T>, s: seq<Keyed<T>>)
    requires Ordered(s)
    requires forall e :: e in s ==> e.id != x.id
    ensures Ordered(Insert(x, s))
  {
    if s == [] {
    } else if Before(s[0], x) {
      InsertOrders(x, s[1..]);
      var t := Insert(x, s[1..]);
      InsertPermutes(x, s[1..]);
      forall j | 0 <= j < |t| ensures Before(s[0], t[j]) {
        assert t[j] in multiset(t);
        if t[j] != x {
          assert t[j] in s[1..];
        }
      }
    } else {
      assert s[0] in s;
    }
  }

  lemma {:induction false} SortOrders<T>(s: seq<Keyed<T>>)
    requires DistinctIds(s)
    ensures Ordered(Sort(s))
  {
    if s == [] {
    } else {
      SortOrders(s[1..]);
      SortPermutes(s[1..]);
      forall e | e in Sort(s[1..]) ensures e.id != s[0].id {
        assert e in multiset(Sort(s[1..]));
        var j: nat :| j < |s[1..]| && s[1..][j] == e;
        assert s[j + 1] == e;
      }
      InsertOrders(s[0], Sort(s[1..]));
    }
  }

  // ----- There is only one ordered arrangement -----

  lemma OrderedHead<T>(s: seq<Keyed<T>>, e: Keyed<T>)
    requires Ordered(s) && e in s
    ensures e == s[0] || Before(s[0], e)
  {
  }

  lemma TailMultiset<T>(s: seq<T>)
    requires s != []
    ensures multiset(s[1..]) == multiset(s) - multiset{s[0]}
  {
    assert s == [s[0]] + s[1..];
  }

  lemma MultisetLength<T>(a: seq<T>, b: seq<T>)
    requires multiset(a) == multiset(b)
    ensures |a| == |b|
    ensures forall x :: x in a <==> x in b
  {
    assert |a| == |multiset(a)| && |b| == |multiset(b)|;
    assert forall x :: x in a <==> x in multiset(a);
    assert forall x :: x in b <==> x in multiset(b);
  }

  lemma {:induction false} OrderedUnique<T>(a: seq<Keyed<T>>, b: seq<Keyed<T>>)
    requires Ordered(a) && Ordered(b)
    requires multiset(a) == multiset(b)
    ensures a == b
  {
    MultisetLength(a, b);
    if a == [] {
    } else {
      assert a[0] in a && b[0] in b;
      OrderedHead(a, b[0]);
      OrderedHead(b, a[0]);
      TailMultiset(a);
      TailMultiset(b);
      OrderedUnique(a[1..], b[1..]);
    }
  }

  lemma {:induction false} SortOfOrdered<T>(s: seq<Keyed<T>>)
    requires Ordered(s)
    ensures Sort(s) == s
  {
    if s == [] {
    } else {
      SortOfOrdered(s[1..]);
      if |s| > 1 {
        assert Before(s[0], s[1]);
      }
    }
  }

  // ----- Sorting looks at keys only: replacing the values commutes with it -----

  function MapVals<T, U>(f: T -> U, s: seq<Keyed<T>>): (r: seq<Keyed<U>>)
    ensures |r| == |s|
    ensures forall i :: 0 <= i < |s| ==> r[i] == Keyed(s[i].rank, s[i].key, s[i].id, f(s[i].val))
  {
    seq(|s|, i requires 0 <= i < |s| => Keyed(s[i].rank, s[i].key, s[i].id, f(s[i].val)))
  }

  lemma {:induction false} InsertMapVals<T, U>(f: T -> U, x: Keyed<T>, s: seq<Keyed<T>>)
    ensures MapVals(f, Insert(x, s)) == Insert(Keyed(x.rank, x.key, x.id, f(x.val)), MapVals(f, s))
  {
    if s == [] {
    } else if Before(s[0], x) {
      InsertMapVals(f, x, s[1..]);
      assert MapVals(f, s)[1..] == MapVals(f, s[1..]);
      MapValsCons(f, s[0], Insert(x, s[1..]));
    } else {
      MapValsCons(f, x, s);
    }
  }

  lemma MapValsCons<T, U>(f: T -> U, x: Keyed<T>, s: seq<Keyed<T>>)
    ensures MapVals(f, [x] + s) == [Keyed(x.rank, x.key, x.id, f(x.val))] + MapVals(f, s)
  {
  }

  lemma {:induction false} SortMapVals<T, U>(f: T -> U, s: seq<Keyed<T>>)
    ensures Sort(MapVals(f, s)) == MapVals(f, Sort(s))
  {
    if s == [] {
    } else {
      assert MapVals(f, s)[1..] == MapVals(f, s[1..]);
      SortMapVals(f, s[1..]);
      InsertMapVals(f, s[0], Sort(s[1..]));
    }
  }
}
