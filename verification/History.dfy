/** From calls on a heap to the end of the transaction: whatever sequence of calls a client makes, what
    abort and commit then leave. */
module History {
  import opened Common
  import opened Slotted
  import opened Rollback
  import opened Restore
  import opened TableHeaps
  import opened TransactionManager

  // ---------------------------------------------------------------- histories grow at the end

  lemma {:induction false} OneMore(s: Store, ops: seq<Op>, op: Op)
    ensures DoAll(s, ops + [op]) == Do(DoAll(s, ops), op).0
    ensures Writes(s, ops + [op])
         == Writes(s, ops) + (match Do(DoAll(s, ops), op).1 case Some(w) => [w] case None => [])
    decreases ops
  {
    hide Do;
    if ops == [] {
      assert [] + [op] == [op] && [op][1..] == [];
      assert Writes(Do(s, op).0, []) == [];
    } else {
      assert (ops + [op])[1..] == ops[1..] + [op];
      OneMore(Do(s, ops[0]).0, ops[1..], op);
    }
  }

  lemma InRangeGrows(ops: seq<Op>, op: Op, end: Store)
    requires InRange(ops, end) && (op.DoDelete? ==> op.rid.slot < |Recs(end, op.rid.page)|)
    ensures InRange(ops + [op], Do(end, op).0)
  {
    forall o | o in ops + [op] && o.DoDelete? ensures o.rid.slot < |Recs(Do(end, op).0, o.rid.page)| {
      DoNeverLosesSlots(end, op, o.rid.page);
    }
  }

  lemma {:induction false} AcceptedGrows(s: Store, ops: seq<Op>, op: Op)
    requires DeletesAccepted(s, ops) && (op.DoDelete? ==> !Gone(At(DoAll(s, ops), op.rid)))
    ensures DeletesAccepted(s, ops + [op])
    decreases ops
  {
    hide Do, At;
    if ops == [] {
      assert [] + [op] == [op] && [op][1..] == [];
    } else {
      assert (ops + [op])[1..] == ops[1..] + [op];
      AcceptedGrows(Do(s, ops[0]).0, ops[1..], op);
    }
  }

  lemma {:induction false} DeletesAreWritten(s: Store, ops: seq<Op>, rid: Rid)
    ensures Deleted(rid) in Writes(s, ops) <==> Deletes(ops, rid)
    decreases ops
  {
    hide Do;
    if ops != [] {
      DeletesAreWritten(Do(s, ops[0]).0, ops[1..], rid);
      WritesUnfold(s, ops);
      WriteOfDelete(s, ops[0]);
      assert ops == [ops[0]] + ops[1..];
      DeletesUnfold(ops[0], ops[1..], rid);
      var w := Do(s, ops[0]).1;
      if w.Some? { assert Writes(s, ops) == [w.value] + Writes(Do(s, ops[0]).0, ops[1..]); }
    }
  }

  // ---------------------------------------------------------------- a client

  /** One call; `available` says whether the buffer pool has a page to spare at that moment. */
  datatype Call = InsertCall(tuple: Bytes, available: bool) | DeleteCall(rid: Rid) | UpdateCall(rid: Rid, tuple: Bytes)

  predicate ProperCall(c: Call) { c.DeleteCall? || (c.tuple != [] && |c.tuple| + 32 < UINT32) }

  /** What the history so far has made of heap and write set. */
  ghost predicate Recorded(heap: TableHeap, txn: Transaction, s: Store, ops: seq<Op>)
    reads heap, txn
  {
    heap.records == DoAll(s, ops) && txn.writeSet == Writes(s, ops) && InRange(ops, heap.records) && ProperOps(ops)
  }

  function Appended(w: Option<Write>): seq<Write> { match w case Some(x) => [x] case None => [] }

  lemma Recalls(s: Store, ops: seq<Op>, op: Op, end: Store)
    requires end == DoAll(s, ops) && InRange(ops, end) && ProperOps(ops)
    requires if op.DoDelete? then op.rid.slot < |Recs(end, op.rid.page)| else op.tuple != []
    ensures DoAll(s, ops + [op]) == Do(end, op).0 && Writes(s, ops + [op]) == Writes(s, ops) + Appended(Do(end, op).1)
    ensures InRange(ops + [op], Do(end, op).0) && ProperOps(ops + [op])
    ensures DeletesAccepted(s, ops) && (op.DoDelete? ==> !Gone(At(end, op.rid))) ==> DeletesAccepted(s, ops + [op])
  {
    hide Do, At;
    OneMore(s, ops, op);
    InRangeGrows(ops, op, end);
    if DeletesAccepted(s, ops) && (op.DoDelete? ==> !Gone(At(end, op.rid))) { AcceptedGrows(s, ops, op); }
  }

  lemma DoTouches(s: Store, op: Op)
    ensures forall p :: p in Do(s, op).0 ==> p in s || p == Target(op)
    ensures op.DoDelete? ==> Do(s, op).1 == Some(Deleted(op.rid))
  {}

  lemma NoCalls(s: Store)
    ensures DoAll(s, []) == s && Writes(s, []) == [] && InRange([], s) && ProperOps([]) && DeletesAccepted(s, [])
  {}

  lemma ChainIsRecorded(heap: TableHeap)
    requires heap.Valid()
    ensures forall p :: p in heap.chain ==> p in heap.records
  {}

  // ---------------------------------------------------------------- what calls make of a heap

  /** What one call does: an insert goes to the page that the walk of the chain finds, an update is
      passed on where its page exists, a delete where its slot does and, from a careful client, holds a
      tuple that can be read. None: the call leaves the heap alone. */
  function OpOf(chain: seq<PageId>, records: Store, c: Call, next: nat, careful: bool): Option<Op> {
    match c
    case InsertCall(tuple, available) =>
      var page := PageFor(chain, records, |tuple|, if available then [next] else []);
      if PassesSizeCheck(|tuple|) && page.Some? then Some(DoInsert(page.value, tuple)) else None
    case DeleteCall(rid) =>
      if rid.page in records && rid.slot < |records[rid.page]| && (careful ==> !Gone(records[rid.page][rid.slot]))
      then Some(DoDelete(rid)) else None
    case UpdateCall(rid, tuple) => if rid.page in records then Some(DoUpdate(rid, tuple)) else None
  }

  predicate HasRoom(records: Store, page: PageId, n: nat) { Free(PAGE_SIZE, Recs(records, page)) >= n + SIZE_TUPLE }

  /** Page k of the chain is the first with room. */
  predicate FirstWithRoom(chain: seq<PageId>, records: Store, n: nat, k: nat) {
    k < |chain| && HasRoom(records, chain[k], n) && forall j :: 0 <= j < k ==> !HasRoom(records, chain[j], n)
  }

  /** Where an insert goes: to the first page of the chain with room, or to a fresh one if there is one
      and the tuple is not oversized, or nowhere. */
  lemma InsertIsMade(chain: seq<PageId>, records: Store, tuple: Bytes, available: bool, next: nat, careful: bool)
    requires |tuple| + 32 < UINT32
    ensures var op := OpOf(chain, records, InsertCall(tuple, available), next, careful);
      && (forall k: nat :: FirstWithRoom(chain, records, |tuple|, k) ==> op == Some(DoInsert(chain[k], tuple)))
      && ((forall k: nat :: !FirstWithRoom(chain, records, |tuple|, k)) ==>
           op == if available && |tuple| + 32 <= PAGE_SIZE then Some(DoInsert(next, tuple)) else None)
  {
    var n := |tuple|;
    var k := FirstFit(chain, records, n, 0);
    RoomMeansSmall(chain, records, n);
    assert k < |chain| ==> FirstWithRoom(chain, records, n, k);
    forall m: nat | FirstWithRoom(chain, records, n, m) ensures m == k {}
    hide FitsPage;
  }

  /** Deletes of slots that exist and updates on pages that exist are passed on, whatever the pages
      answer. */
  lemma ChangeIsMade(chain: seq<PageId>, records: Store, rid: Rid, tuple: Bytes, next: nat, careful: bool)
    requires rid.page in records
    ensures OpOf(chain, records, UpdateCall(rid, tuple), next, careful) == Some(DoUpdate(rid, tuple))
    ensures OpOf(chain, records, DeleteCall(rid), next, careful) ==
      if rid.slot < |records[rid.page]| && (careful ==> At(records, rid).Record? && !At(records, rid).deleted)
      then Some(DoDelete(rid)) else None
  {}

  /** A page with room for a tuple shows that the tuple is not oversized. */
  lemma RoomMeansSmall(chain: seq<PageId>, records: Store, n: nat)
    ensures forall p :: FitsPage(Recs(records, p), n) ==> n + 32 <= PAGE_SIZE
    ensures FitsPage([], n) <==> n + 32 <= PAGE_SIZE
  {
    assert Used([]) == 0;
  }

  function ChainAfter(chain: seq<PageId>, op: Op): seq<PageId> {
    if op.DoInsert? && op.page !in chain then chain + [op.page] else chain
  }

  /** The history that the calls make of a heap, and whether an insert that found no room aborted the
      transaction on the way; later calls are not made then. The page spare for the first call is `next`. */
  function HistoryOf(chain: seq<PageId>, records: Store, calls: seq<Call>, next: nat, careful: bool): (seq<Op>, bool)
    decreases |calls|
  {
    if calls == [] then ([], false)
    else
      var op := OpOf(chain, records, calls[0], next, careful);
      if op.None? then
        if calls[0].InsertCall? then ([], true) else HistoryOf(chain, records, calls[1..], next + 1, careful)
      else
        var (ops, aborted) := HistoryOf(ChainAfter(chain, op.value), Do(records, op.value).0, calls[1..], next + 1, careful);
        ([op.value] + ops, aborted)
  }

  function Prefixed(ops: seq<Op>, r: (seq<Op>, bool)): (seq<Op>, bool) { (ops + r.0, r.1) }

  lemma HistoryUnfolds(ops: seq<Op>, chain: seq<PageId>, records: Store, calls: seq<Call>, i: nat, next: nat, careful: bool)
    requires i < |calls|
    ensures var op := OpOf(chain, records, calls[i], next, careful);
      var all := Prefixed(ops, HistoryOf(chain, records, calls[i..], next, careful));
      && (op.Some? ==> all == Prefixed(ops + [op.value],
            HistoryOf(ChainAfter(chain, op.value), Do(records, op.value).0, calls[i + 1..], next + 1, careful)))
      && (op.None? && calls[i].InsertCall? ==> all == (ops, true))
      && (op.None? && !calls[i].InsertCall? ==> all == Prefixed(ops, HistoryOf(chain, records, calls[i + 1..], next + 1, careful)))
  {
    hide OpOf, Do, ChainAfter;
    assert calls[i..][1..] == calls[i + 1..] && calls[i..][0] == calls[i];
    assert ops + [] == ops;
    var op := OpOf(chain, records, calls[i], next, careful);
    if op.Some? {
      var rest := HistoryOf(ChainAfter(chain, op.value), Do(records, op.value).0, calls[i + 1..], next + 1, careful);
      assert ops + ([op.value] + rest.0) == (ops + [op.value]) + rest.0;
    }
  }

  /** Makes the calls in turn, until one of them aborts the transaction. Page ids from nextId on are
      unused. */
  method Perform(heap: TableHeap, txn: Transaction, calls: seq<Call>, nextId: nat, careful: bool) returns (ghost ops: seq<Op>)
    requires heap.Valid() && txn.state == Growing && txn.writeSet == []
    requires (forall p :: p in heap.records ==> p < nextId) && forall c :: c in calls ==> ProperCall(c)
    modifies heap, txn
    ensures heap.Valid() && Recorded(heap, txn, old(heap.records), ops)
    ensures (ops, txn.state == Aborted) == HistoryOf(old(heap.chain), old(heap.records), calls, nextId, careful)
    ensures careful ==> DeletesAccepted(old(heap.records), ops)
  {
    hide TableHeap.Valid, Do, InRange, ProperOps, DoAll, Writes, DeletesAccepted, PageFor, Wasted, OpOf, HistoryOf, ChainAfter;
    ghost var s, all := heap.records, HistoryOf(heap.chain, heap.records, calls, nextId, careful);
    ops := [];
    NoCalls(s);
    assert calls[0..] == calls;
    assert [] + all.0 == all.0;
    var next, i := nextId, 0;
    while i < |calls| && txn.state != Aborted
      invariant i <= |calls| && heap.Valid() && Recorded(heap, txn, s, ops)
      invariant forall p :: p in heap.records ==> p < next
      invariant if txn.state == Aborted then all == (ops, true)
                else all == Prefixed(ops, HistoryOf(heap.chain, heap.records, calls[i..], next, careful))
      invariant careful ==> DeletesAccepted(s, ops)
    {
      HistoryUnfolds(ops, heap.chain, heap.records, calls, i, next, careful);
      ghost var op := MakeCall(heap, txn, calls[i], next, careful, s, ops);
      if op.Some? { ops := ops + [op.value]; }
      next := next + 1;
      i := i + 1;
    }
    NoMoreCalls(heap.chain, heap.records, calls, next, careful);
    assert ops + [] == ops;
  }

  lemma NoMoreCalls(chain: seq<PageId>, records: Store, calls: seq<Call>, next: nat, careful: bool)
    ensures HistoryOf(chain, records, calls[|calls|..], next, careful) == ([], false)
  {}

  lemma PageIsOneOf(chain: seq<PageId>, records: Store, n: nat, spares: seq<PageId>)
    ensures var page := PageFor(chain, records, n, spares); page.Some? ==> page.value in chain || page.value in spares
  {}

  /** One call of the client, and the operation it adds to the history, if any. */
  method MakeCall(heap: TableHeap, txn: Transaction, c: Call, next: nat, careful: bool, ghost s: Store, ghost ops: seq<Op>)
    returns (ghost op: Option<Op>)
    requires heap.Valid() && txn.state != Aborted && Recorded(heap, txn, s, ops) && ProperCall(c)
    requires (forall p :: p in heap.records ==> p < next) && (careful ==> DeletesAccepted(s, ops))
    modifies heap, txn
    ensures heap.Valid() && (forall p :: p in heap.records ==> p < next + 1)
    ensures op == OpOf(old(heap.chain), old(heap.records), c, next, careful)
    ensures if op.None? then heap.chain == old(heap.chain) && heap.records == old(heap.records)
            else heap.chain == ChainAfter(old(heap.chain), op.value) && heap.records == Do(old(heap.records), op.value).0
    ensures txn.state == Aborted <==> op.None? && c.InsertCall?
    ensures var ops1 := if op.None? then ops else ops + [op.value];
      Recorded(heap, txn, s, ops1) && (careful ==> DeletesAccepted(s, ops1))
  {
    hide TableHeap.Valid, InRange, ProperOps, DoAll, Writes, DeletesAccepted, Do, PageFor;
    ghost var end := heap.records;
    op := OpOf(heap.chain, heap.records, c, next, careful);
    match c
    case InsertCall(tuple, available) =>
      ChainIsRecorded(heap);
      PageIsOneOf(heap.chain, heap.records, |tuple|, if available then [next] else []);
      var rid := heap.InsertTuple(tuple, txn, if available then [next] else []);
      if rid.Some? {
        DoTouches(end, op.value);
        Recalls(s, ops, op.value, end);
      } else {
        assert end + EmptyPages([]) == end;
        assert old(heap.chain) + [] == old(heap.chain);
      }
    case DeleteCall(rid) =>
      if rid.page in heap.records && rid.slot < |heap.records[rid.page]| && (careful ==> !Gone(heap.records[rid.page][rid.slot])) {
        DoTouches(end, op.value);
        Recalls(s, ops, op.value, end);
        heap.MarkDelete(rid, txn);
      }
    case UpdateCall(rid, tuple) =>
      if rid.page in heap.records {
        DoTouches(end, op.value);
        Recalls(s, ops, op.value, end);
        var _ := heap.UpdateTuple(tuple, rid, txn);
      }
  }

  // ---------------------------------------------------------------- to the end of the transaction

  ghost predicate NoOldMarks(s: Store, ops: seq<Op>) {
    forall rid :: Deletes(ops, rid) ==> !(At(s, rid).Record? && At(s, rid).deleted)
  }

  /** Calls on a heap, then abort: whatever the calls were, the heap is the undo of the history they
      make. If the first update of every tuple the transaction did not insert had slack, the tuples are
      back exactly when no mark-delete named a tuple that carried a mark before. */
  method PerformAndAbort(heap: TableHeap, txn: Transaction, calls: seq<Call>, nextId: nat)
    requires heap.Valid() && txn.state == Growing && txn.writeSet == []
    requires Fits(heap.records) && NoEmptyTuples(heap.records)
    requires (forall p :: p in heap.records ==> p < nextId) && forall c :: c in calls ==> ProperCall(c)
    modifies heap, txn
    ensures txn.state == Aborted && txn.writeSet == []
    ensures var s := old(heap.records);
      var ops := HistoryOf(old(heap.chain), s, calls, nextId, false).0;
      && heap.records == UndoAll(DoAll(s, ops), Writes(s, ops))
      && (FirstSlack(s, ops, DoAll(s, ops), {}) ==> (SameTuples(heap.records, s) <==> NoOldMarks(s, ops)))
      && (UpdatesOnce(s, ops, {}) ==> (SameTuples(heap.records, s) <==> Slack(s, ops, DoAll(s, ops)) && NoOldMarks(s, ops)))
  {
    hide TableHeap.Valid, InRange, ProperOps, DoAll, Writes, Deletes, At, Fits, NoEmptyTuples, Undoable, FirstSlack, UpdatesOnce, Slack, SameTuples, HistoryOf;
    ghost var s := heap.records;
    ghost var ops := Perform(heap, txn, calls, nextId, false);
    RunIsUndoable(s, ops);
    Abort(txn, heap);
    if FirstSlack(s, ops, DoAll(s, ops), {}) { FirstSlackRestoresIff(s, ops); }
    if UpdatesOnce(s, ops, {}) { SingleUpdatesRestoreIff(s, ops); }
  }

  /** Calls on a heap that delete only what can be read, then commit, or abort if an insert aborted the
      transaction: after a commit the deleted tuples are gone and everything else is as the calls left it. */
  method PerformAndCommit(heap: TableHeap, txn: Transaction, calls: seq<Call>, nextId: nat) returns (committed: bool)
    requires heap.Valid() && txn.state == Growing && txn.writeSet == [] && NoEmptyTuples(heap.records)
    requires (forall p :: p in heap.records ==> p < nextId) && forall c :: c in calls ==> ProperCall(c)
    modifies heap, txn
    ensures var s := old(heap.records);
      var (ops, aborted) := HistoryOf(old(heap.chain), s, calls, nextId, true);
      && committed == !aborted && txn.state == (if committed then Committed else Aborted)
      && if committed then forall rid :: At(heap.records, rid) == if Deletes(ops, rid) then Vacant else At(DoAll(s, ops), rid)
         else heap.records == UndoAll(DoAll(s, ops), Writes(s, ops))
  {
    hide TableHeap.Valid, InRange, ProperOps, DoAll, Writes, Deletes, At, NoEmptyTuples, CommitAll, Undoable, HistoryOf;
    ghost var s := heap.records;
    ghost var ops := Perform(heap, txn, calls, nextId, true);
    committed := txn.state != Aborted;
    if !committed {
      RunIsUndoable(s, ops);
      Abort(txn, heap);
      return;
    }
    AcceptedDeletesCommit(s, ops);
    WritesAreProper(s, ops);
    ghost var end := heap.records;
    Commit(txn, heap);
    forall rid ensures At(heap.records, rid) == if Deletes(ops, rid) then Vacant else At(end, rid) {
      CommitErases(end, Writes(s, ops), rid);
      DeletesAreWritten(s, ops, rid);
    }
  }
}
