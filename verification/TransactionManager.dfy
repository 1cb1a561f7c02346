/** Commit and abort as the loops over the table write set. */
module TransactionManager {
  import opened Common
  import opened Slotted
  import opened Rollback
  import opened TableHeaps

  // ---------------------------------------------------------------- commit

  function Erase(s: Store, w: Write): Store {
    if w.Deleted? && At(s, w.rid).Record?
    then s[w.rid.page := Slotted.ApplyDelete(Recs(s, w.rid.page), w.rid.slot)]
    else s
  }

  /** The commit loop, last write first. */
  function CommitAll(s: Store, ws: seq<Write>): Store
    decreases ws
  {
    if ws == [] then s else CommitAll(Erase(s, ws[|ws| - 1]), ws[..|ws| - 1])
  }

  /** Each delete the loop applies finds a tuple in its slot. */
  predicate CommitMeetsAssertions(s: Store, ws: seq<Write>)
    decreases ws
  {
    ws == [] ||
    ((ws[|ws| - 1].Deleted? ==> At(s, ws[|ws| - 1].rid).Record?)
     && CommitMeetsAssertions(Erase(s, ws[|ws| - 1]), ws[..|ws| - 1]))
  }

  /** No RID is deleted twice. */
  predicate DeletesOnce(ws: seq<Write>) {
    forall i, j :: 0 <= i < j < |ws| && ws[i].Deleted? ==> ws[i] != ws[j]
  }

  lemma EraseIs(s: Store, w: Write, rid: Rid)
    ensures At(Erase(s, w), rid) == if w == Deleted(rid) then Vacant else At(s, rid)
  {}

  lemma DeletesOnceUnfolds(rest: seq<Write>, last: Write)
    ensures DeletesOnce(rest + [last]) <==> DeletesOnce(rest) && (last.Deleted? ==> last !in rest)
  {
    var ws := rest + [last];
    assert forall i :: 0 <= i < |rest| ==> ws[i] == rest[i];
    if last in rest {
      var i :| 0 <= i < |rest| && rest[i] == last;
      assert ws[i] == ws[|rest|];
    }
  }

  predicate AllHold(s: Store, ws: seq<Write>) { forall w :: w in ws && w.Deleted? ==> At(s, w.rid).Record? }

  lemma AllHoldUnfolds(s: Store, rest: seq<Write>, last: Write)
    ensures AllHold(s, rest + [last]) <==> AllHold(s, rest) && (last.Deleted? ==> At(s, last.rid).Record?)
    ensures (last.Deleted? ==> last !in rest) ==> (AllHold(Erase(s, last), rest) <==> AllHold(s, rest))
    ensures last.Deleted? && last in rest ==> !AllHold(Erase(s, last), rest)
  {
    hide Erase, At;
    forall w: Write | w.Deleted? ensures At(Erase(s, last), w.rid) == if last == w then Vacant else At(s, w.rid) {
      EraseIs(s, last, w.rid);
      assert w == Deleted(w.rid);
    }
    assert forall w :: w in rest + [last] <==> w in rest || w == last;
  }

  /** Commit trips no assertion exactly when the deletes name distinct slots that hold tuples. */
  lemma {:induction false} CommitMeetsAssertionsIff(s: Store, ws: seq<Write>)
    ensures CommitMeetsAssertions(s, ws) <==> DeletesOnce(ws) && AllHold(s, ws)
    decreases ws
  {
    hide Erase, At, DeletesOnce, AllHold;
    if ws == [] {
      Nothing(s);
    } else {
      var last, rest := ws[|ws| - 1], ws[..|ws| - 1];
      CommitMeetsAssertionsIff(Erase(s, last), rest);
      assert ws == rest + [last];
      DeletesOnceUnfolds(rest, last);
      AllHoldUnfolds(s, rest, last);
    }
  }

  lemma Nothing(s: Store)
    ensures DeletesOnce([]) && AllHold(s, [])
  {}

  /** What commit leaves: every tuple this transaction deleted is gone, every other is untouched. */
  lemma {:induction false} CommitErases(s: Store, ws: seq<Write>, rid: Rid)
    ensures At(CommitAll(s, ws), rid) == if Deleted(rid) in ws then Vacant else At(s, rid)
    decreases ws
  {
    hide Erase, At;
    if ws != [] {
      var last, rest := ws[|ws| - 1], ws[..|ws| - 1];
      CommitErases(Erase(s, last), rest, rid);
      EraseIs(s, last, rid);
      assert ws == rest + [last];
    }
  }

  /** Every mark-delete was accepted by the page it went to. */
  predicate DeletesAccepted(s: Store, ops: seq<Op>)
    decreases ops
  {
    ops == [] ||
    ((ops[0].DoDelete? ==> !Gone(At(s, ops[0].rid))) && DeletesAccepted(Do(s, ops[0]).0, ops[1..]))
  }

  predicate Marked(r: Record) { r.Record? && r.deleted }

  lemma MarkStays(s: Store, op: Op, rid: Rid)
    requires Marked(At(s, rid))
    ensures At(Do(s, op).0, rid) == At(s, rid)
  {
    hide Free;
  }

  lemma AcceptedDeleteMarks(s: Store, rid: Rid)
    requires !Gone(At(s, rid))
    ensures Marked(At(Do(s, DoDelete(rid)).0, rid))
  {}

  lemma {:induction false} MarkStaysToTheEnd(s: Store, ops: seq<Op>, rid: Rid)
    requires Marked(At(s, rid)) && DeletesAccepted(s, ops)
    ensures At(DoAll(s, ops), rid) == At(s, rid) && Deleted(rid) !in Writes(s, ops)
    decreases ops
  {
    hide Do, At;
    if ops != [] {
      MarkStays(s, ops[0], rid);
      MarkStaysToTheEnd(Do(s, ops[0]).0, ops[1..], rid);
      WritesUnfold(s, ops);
      WriteOfDelete(s, ops[0]);
    }
  }

  lemma WriteOfDelete(s: Store, op: Op)
    ensures Do(s, op).1.Some? ==> (op.DoDelete? <==> Do(s, op).1.value.Deleted?)
    ensures op.DoDelete? ==> Do(s, op).1 == Some(Deleted(op.rid))
  {}

  /** A transaction whose mark-deletes were all accepted can commit. */
  lemma {:induction false} AcceptedDeletesCommit(s: Store, ops: seq<Op>)
    requires DeletesAccepted(s, ops)
    ensures CommitMeetsAssertions(DoAll(s, ops), Writes(s, ops))
  {
    DeletesAreDistinctTuples(s, ops);
    CommitMeetsAssertionsIff(DoAll(s, ops), Writes(s, ops));
  }

  lemma {:induction false} DeletesAreDistinctTuples(s: Store, ops: seq<Op>)
    requires DeletesAccepted(s, ops)
    ensures DeletesOnce(Writes(s, ops))
    ensures AllHold(DoAll(s, ops), Writes(s, ops))
    decreases ops
  {
    hide Do, At;
    if ops != [] {
      var (s1, w) := Do(s, ops[0]);
      DeletesAreDistinctTuples(s1, ops[1..]);
      WritesUnfold(s, ops);
      WriteOfDelete(s, ops[0]);
      if ops[0].DoDelete? {
        AcceptedDeleteMarks(s, ops[0].rid);
        MarkStaysToTheEnd(s1, ops[1..], ops[0].rid);
      }
      if w.Some? { assert Writes(s, ops) == [w.value] + Writes(s1, ops[1..]); }
    }
  }

  // ---------------------------------------------------------------- the loops

  predicate PagesExist(s: Store, ws: seq<Write>) { forall w :: w in ws ==> w.rid.page in s }

  method Commit(txn: Transaction, heap: TableHeap)
    requires heap.Valid() && PagesExist(heap.records, txn.writeSet)
    requires CommitMeetsAssertions(heap.records, txn.writeSet)
    modifies txn, heap`records
    ensures heap.Valid() && txn.state == Committed && txn.writeSet == []
    ensures heap.records == CommitAll(old(heap.records), old(txn.writeSet))
  {
    txn.state := Committed;
    while txn.writeSet != []
      invariant heap.Valid() && txn.state == Committed
      invariant PagesExist(heap.records, txn.writeSet)
      invariant CommitMeetsAssertions(heap.records, txn.writeSet)
      invariant CommitAll(heap.records, txn.writeSet) == CommitAll(old(heap.records), old(txn.writeSet))
      decreases |txn.writeSet|
    {
      var item := txn.writeSet[|txn.writeSet| - 1];
      if item.Deleted? {
        heap.ApplyDelete(item.rid);
      }
      txn.writeSet := txn.writeSet[..|txn.writeSet| - 1];
    }
  }

  /** The conditions under which the abort loop runs through, item by item. */
  predicate Undoable(s: Store, ws: seq<Write>) {
    PagesExist(s, ws) && NonemptyVersions(ws) && MeetsAssertions(s, ws)
  }

  lemma UndoableLast(s: Store, ws: seq<Write>)
    requires ws != [] && Undoable(s, ws)
    ensures var item, rest := ws[|ws| - 1], ws[..|ws| - 1]; var s1 := Undo(s, item).0;
            && item.rid.page in s && (if item.Updated? then item.before != [] else Undo(s, item).1)
            && Undoable(s1, rest) && UndoAll(s, ws) == UndoAll(s1, rest)
  {
    hide UndoAll, MeetsAssertions, Undo;
    var item := ws[|ws| - 1];
    UndoFromTheBack(s, ws[..|ws| - 1], item);
    UndoKeepsPages(s, item);
    assert ws == ws[..|ws| - 1] + [item];
    assert item in ws;
  }

  /** Tuples are never empty, old versions included. */
  predicate NonemptyVersions(ws: seq<Write>) { forall w :: w in ws && w.Updated? ==> w.before != [] }

  predicate NoEmptyTuples(s: Store) {
    forall page :: page in s ==> forall i :: 0 <= i < |s[page]| && s[page][i].Record? ==> s[page][i].data != []
  }

  /** Calls carry the nonempty tuples the pages ask for. */
  predicate ProperOps(ops: seq<Op>) { forall op :: op in ops && !op.DoDelete? ==> op.tuple != [] }

  lemma DoIsProper(s: Store, op: Op)
    requires NoEmptyTuples(s) && (!op.DoDelete? ==> op.tuple != [])
    ensures NoEmptyTuples(Do(s, op).0) && s.Keys <= Do(s, op).0.Keys
    ensures var w := Do(s, op).1;
            w.Some? ==> w.value.rid.page in Do(s, op).0 && (w.value.Updated? ==> w.value.before != [])
  {
    hide Free;
  }

  lemma {:induction false} DoAllKeepsPages(s: Store, ops: seq<Op>)
    requires NoEmptyTuples(s) && ProperOps(ops)
    ensures s.Keys <= DoAll(s, ops).Keys
    decreases ops
  {
    hide Do, NoEmptyTuples;
    if ops != [] {
      assert ops[0] in ops;
      DoIsProper(s, ops[0]);
      DoAllKeepsPages(Do(s, ops[0]).0, ops[1..]);
    }
  }

  /** Whatever a transaction did, if the slots it tried to mark-delete exist in the end, abort runs
      through on what it wrote. */
  lemma {:induction false} RunIsUndoable(s: Store, ops: seq<Op>)
    requires NoEmptyTuples(s) && ProperOps(ops) && InRange(ops, DoAll(s, ops))
    ensures Undoable(DoAll(s, ops), Writes(s, ops))
  {
    AbortMeetsAssertionsIff(s, ops);
    WritesAreProper(s, ops);
  }

  lemma {:induction false} WritesAreProper(s: Store, ops: seq<Op>)
    requires NoEmptyTuples(s) && ProperOps(ops)
    ensures PagesExist(DoAll(s, ops), Writes(s, ops)) && NonemptyVersions(Writes(s, ops))
    decreases ops
  {
    hide Do, NoEmptyTuples;
    if ops != [] {
      assert ops[0] in ops;
      var (s1, w) := Do(s, ops[0]);
      DoIsProper(s, ops[0]);
      WritesAreProper(s1, ops[1..]);
      DoAllKeepsPages(s1, ops[1..]);
      WritesUnfold(s, ops);
      if w.Some? { assert Writes(s, ops) == [w.value] + Writes(s1, ops[1..]); }
    }
  }

  /** One turn of the abort loop. An update made while the transaction is aborted appends no write
      record, so the write set does not grow under the loop. */
  method UndoItem(item: Write, txn: Transaction, heap: TableHeap)
    requires heap.Valid() && txn.state == Aborted
    requires item.rid.page in heap.records
    requires if item.Updated? then item.before != [] else Undo(heap.records, item).1
    modifies txn, heap`records
    ensures heap.Valid() && txn.state == Aborted && txn.writeSet == old(txn.writeSet)
    ensures heap.records == Undo(old(heap.records), item).0
  {
    hide TableHeap.Valid, Free;
    if item.Deleted? {
      heap.RollbackDelete(item.rid);
    } else if item.Inserted? {
      heap.ApplyDelete(item.rid);
    } else {
      UndoneUpdateIsUpdate(heap.records, item);
      var _ := heap.UpdateTuple(item.before, item.rid, txn);
    }
  }

  lemma UndoneUpdateIsUpdate(s: Store, w: Write)
    requires w.Updated?
    ensures Undo(s, w).0 == Do(s, DoUpdate(w.rid, w.before)).0
  {}

  lemma UndoKeepsPages(s: Store, w: Write)
    ensures s.Keys <= Undo(s, w).0.Keys
  {}

  method Abort(txn: Transaction, heap: TableHeap)
    requires heap.Valid() && Undoable(heap.records, txn.writeSet)
    modifies txn, heap`records
    ensures heap.Valid() && txn.state == Aborted && txn.writeSet == []
    ensures heap.records == UndoAll(old(heap.records), old(txn.writeSet))
  {
    hide UndoAll, Undoable, TableHeap.Valid, Undo, At;
    txn.state := Aborted;
    while txn.writeSet != []
      invariant heap.Valid() && txn.state == Aborted
      invariant Undoable(heap.records, txn.writeSet)
      invariant UndoAll(heap.records, txn.writeSet) == UndoAll(old(heap.records), old(txn.writeSet))
      decreases |txn.writeSet|
    {
      UndoableLast(heap.records, txn.writeSet);
      var item := txn.writeSet[|txn.writeSet| - 1];
      UndoItem(item, txn, heap);
      txn.writeSet := txn.writeSet[..|txn.writeSet| - 1];
    }
    UndoNothing(heap.records);
  }

  lemma UndoNothing(s: Store)
    ensures UndoAll(s, []) == s
  {}
}
