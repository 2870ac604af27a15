/**
 The size column. It is set from the length of what the client sent, the text itself is stored up to
 its first NUL, and the forced shrink passes sizes through a 32-bit int. This file says exactly when
 the column nevertheless equals the length of the stored payload.
 */
module Payloads {
  import opened Sorting
  import opened Rows
  import opened Compaction
  import opened StoreMachine
  import opened Refinement

  ghost predicate Sized(r: Record) {
    r.size == if r.blob.Some? then |r.blob.value| else |r.content.GetOr("")|
  }

  ghost predicate AllSized(n: Notebook) {
    forall id :: id in n.records ==> Sized(n.records[id])
  }

  // A text entry has the right size exactly when the text has no NUL; an upload always has.
  lemma StoredSizes(content: string, filename: string, mime: string, data: string, stored: Option<int>, now: int)
    ensures Sized(TextRecord(content, stored, now)) <==> '\0' !in content
    ensures Sized(FileRecord(filename, mime, data, stored, now))
  {
  }

  lemma ReloadedSize(r: Record)
    requires Sized(r)
    ensures Sized(Trimmed(r)) <==> r.size < TWO_31
  {
  }

  lemma {:induction false} NotedRecords(records: map<int, Record>, n: nat)
    ensures forall i :: 0 <= i < |Noted(records, n)| ==>
      Noted(records, n)[i].id in records && Noted(records, n)[i].val == records[Noted(records, n)[i].id]
  {
    if n > 0 {
      NotedRecords(records, n - 1);
    }
  }

  ghost predicate IsRecord(n: Notebook, r: Record) {
    exists id :: id in n.records && n.records[id] == r
  }

  lemma OldestToNewestRecords(n: Notebook)
    requires AllSized(n)
    ensures forall i :: 0 <= i < |OldestToNewest(n)| ==> Sized(OldestToNewest(n)[i])
    ensures forall i :: 0 <= i < |OldestToNewest(n)| ==> IsRecord(n, OldestToNewest(n)[i])
  {
    var s := Noted(n.records, n.max);
    NotedRecords(n.records, n.max);
    SortPermutes(s);
    forall i | 0 <= i < |Sort(s)|
      ensures Sized(Sort(s)[i].val) && IsRecord(n, Sort(s)[i].val)
    {
      assert Sort(s)[i] in multiset(Sort(s));
      var j :| 0 <= j < |s| && s[j] == Sort(s)[i];
      assert s[j].id in n.records;
    }
  }

  /** The records a forced shrink keeps. */
  function Survivors(n: Notebook, limit: int, counted: bool): seq<Record>
    requires 1 <= limit
  {
    var all := OldestToNewest(n);
    if counted then Newest(n, limit) else if |all| <= limit then all else all[..limit]
  }

  ghost predicate AllFit(rs: seq<Record>) {
    forall i :: 0 <= i < |rs| ==> rs[i].size < TWO_31
  }

  lemma TrimmedSizes(rs: seq<Record>)
    requires forall i :: 0 <= i < |rs| ==> Sized(rs[i])
    ensures (forall id :: id in TrimmedFrom1(rs) ==> Sized(TrimmedFrom1(rs)[id])) <==> AllFit(rs)
  {
    var m := TrimmedFrom1(rs);
    forall i | 0 <= i < |rs| ensures i + 1 in m && (Sized(m[i + 1]) <==> rs[i].size < TWO_31) {
      ReloadedSize(rs[i]);
    }
  }

  // A forced shrink that goes through leaves all sizes right exactly when each entry it keeps is below
  // 2 GiB. What it drops does not matter.
  lemma ShrinkKeepsSizesExactly(n: Notebook, limit: int, counted: bool)
    requires AllSized(n) && 1 <= limit < n.max && Storable(Survivors(n, limit, counted))
    ensures AllSized(Step(n, Restart(limit, true, counted))) <==> AllFit(Survivors(n, limit, counted))
  {
    var rs := Survivors(n, limit, counted);
    OldestToNewestRecords(n);
    forall i | 0 <= i < |rs| ensures Sized(rs[i]) {
      assert rs[i] in OldestToNewest(n);
    }
    TrimmedSizes(rs);
    assert Step(n, Restart(limit, true, counted)).records == TrimmedFrom1(rs);
  }

  /** The text the request stores has no NUL, and a forced shrink keeps no entry of 2 GiB or more. */
  ghost predicate KeepsSizes(n: Notebook, op: Op) {
    match op
    case InsertText(content, _) => n.max > 0 ==> '\0' !in content
    case UpdateText(id, content, _) => id in n.records ==> '\0' !in content
    case PatchText(id, newContent, _) => Patchable(n, id) ==> '\0' !in newContent.GetOr("")
    case Restart(limit, force, counted) =>
      force && 1 <= limit < n.max && Storable(Survivors(n, limit, counted)) ==> AllFit(Survivors(n, limit, counted))
    case _ => true
  }

  predicate Patchable(n: Notebook, id: int) {
    id in n.records && n.records[id].media in {None, Some(TextMedia)} && n.records[id].blob.None?
  }

  // Whatever the request, right sizes stay right exactly under these two conditions.
  lemma StepKeepsSizesExactly(n: Notebook, op: Op)
    requires AllSized(n)
    ensures AllSized(Step(n, op)) <==> KeepsSizes(n, op)
  {
    match op
    case InsertText(content, now) =>
      StoredSizes(content, "", "", "", Some(now), now);
      AmendedSizes(n, n.next, TextRecord(content, Some(now), now));
    case UpdateText(id, content, now) =>
      if id in n.records {
        StoredSizes(content, "", "", "", n.records[id].stored, now);
        AmendedSizes(n, id, TextRecord(content, n.records[id].stored, now));
      }
    case PatchText(id, newContent, now) =>
      if Patchable(n, id) {
        var content := newContent.GetOr(n.records[id].content.GetOr(""));
        StoredSizes(content, "", "", "", n.records[id].stored, now);
        AmendedSizes(n, id, TextRecord(content, n.records[id].stored, now));
      }
    case Resequence(scanned) =>
      OldestToNewestRecords(FirstNotes(n, if scanned <= n.max then scanned else n.max));
    case Restart(limit, force, counted) =>
      if force && 1 <= limit < n.max && Storable(Survivors(n, limit, counted)) {
        ShrinkKeepsSizesExactly(n, limit, counted);
      }
    case _ =>
  }

  lemma AmendedSizes(n: Notebook, id: int, r: Record)
    requires AllSized(n)
    ensures AllSized(Amend(n, id, r)) <==> Sized(r)
  {
    assert Amend(n, id, r).records[id] == r;
  }

  /** Each request keeps sizes right, or fails without effect. */
  ghost predicate SizedStep(s: Snapshot, op: Op, t: Snapshot) {
    Abs(t) == Abs(s) || KeepsSizes(Abs(s), op)
  }

  // In every reachable state the size column is the length of the stored payload, unless a text with a
  // NUL was stored or a forced shrink kept an entry of 2 GiB or more.
  lemma {:induction false} ReachableSizesAreRight(states: seq<Snapshot>, ops: seq<Op>, k: nat)
    requires Run(states, ops) && k < |states| && states[0] == BLANK
    requires forall i :: 0 <= i < k ==> SizedStep(states[i], ops[i], states[i + 1])
    ensures AllSized(Abs(states[k]))
  {
    hide Step, KeepsSizes, Apply;
    if k > 0 {
      ReachableSizesAreRight(states, ops, k - 1);
      ReachableStatesAreGood(states, ops, k - 1);
      assert Next(states[k - 1], ops[k - 1], states[k - 1 + 1]);
      assert SizedStep(states[k - 1], ops[k - 1], states[k - 1 + 1]);
      NextRefines(states[k - 1], ops[k - 1], states[k]);
      StepKeepsSizesExactly(Abs(states[k - 1]), ops[k - 1]);
    }
  }
}
