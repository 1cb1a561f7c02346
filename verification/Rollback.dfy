/** Undoing a transaction's writes: what the abort loop makes of the pages after any history of
    inserts, mark-deletes and updates, and exactly when it puts everything back. Page ids are unique
    across tables, so one store stands for all tables. */
module Rollback {
  import opened Common
  import opened Slotted

  type Store = map<PageId, seq<Record>>

  /** One call on a table page, on behalf of the transaction. */
  datatype Op = DoInsert(page: PageId, tuple: Bytes) | DoDelete(rid: Rid) | DoUpdate(rid: Rid, tuple: Bytes)

  datatype Write = Inserted(rid: Rid) | Deleted(rid: Rid) | Updated(rid: Rid, before: Bytes)

  /** A page not allocated yet counts as a page without slots. */
  function Recs(s: Store, page: PageId): seq<Record> { if page in s then s[page] else [] }

  function At(s: Store, rid: Rid): Record {
    if rid.slot < |Recs(s, rid.page)| then Recs(s, rid.page)[rid.slot] else Vacant
  }

  /** The same map from RIDs to bytes and deleted flag. */
  ghost predicate SameTuples(a: Store, b: Store) { forall rid :: At(a, rid) == At(b, rid) }

  // ---------------------------------------------------------------- forward

  /** The new state and the write record appended, if any. A mark-delete is recorded even when the
      page refused it. */
  function Do(s: Store, op: Op): (Store, Option<Write>) {
    match op
    case DoInsert(page, tuple) =>
      var (rs, slot) := Insert(PAGE_SIZE, Recs(s, page), tuple);
      if slot.None? then (s, None) else (s[page := rs], Some(Inserted(Rid(page, slot.value))))
    case DoDelete(rid) =>
      (s[rid.page := MarkDelete(Recs(s, rid.page), rid.slot).0], Some(Deleted(rid)))
    case DoUpdate(rid, tuple) =>
      var (rs, before) := Update(PAGE_SIZE, Recs(s, rid.page), rid.slot, tuple);
      if before.None? then (s, None) else (s[rid.page := rs], Some(Updated(rid, before.value)))
  }

  /** What one call does to every RID, and what it leaves in the write set. */
  lemma DoOutcome(s: Store, op: Op, rid: Rid)
    ensures var (r, w) := Do(s, op);
            match op
            case DoInsert(page, tuple) =>
              && (w.None? <==> Free(PAGE_SIZE, Recs(s, page)) < |tuple| + SIZE_TUPLE)
              && (w.None? ==> r == s)
              && (w.Some? ==>
                   && w.value.Inserted? && w.value.rid.page == page && At(s, w.value.rid).Vacant?
                   && (forall j: nat :: j < w.value.rid.slot ==> At(s, Rid(page, j)).Record?)
                   && At(r, rid) == if rid == w.value.rid then Record(tuple, false) else At(s, rid))
            case DoDelete(d) =>
              && w == Some(Deleted(d))
              && At(r, rid) == if rid == d && At(s, d).Record? then Record(At(s, d).data, true) else At(s, rid)
            case DoUpdate(u, tuple) =>
              var old_ := At(s, u);
              && (w.Some? <==> old_.Record? && !old_.deleted && |tuple| <= Free(PAGE_SIZE, Recs(s, u.page)) + |old_.data|)
              && (w.None? ==> r == s)
              && (w.Some? ==> w.value == Updated(u, old_.data) && At(r, rid) == if rid == u then Record(tuple, false) else At(s, rid))
  {
    match op
    case DoInsert(page, tuple) => InsertOutcome(PAGE_SIZE, Recs(s, page), tuple); hide Insert;
    case DoDelete(d) => MarkDeleteOutcome(Recs(s, d.page), d.slot); hide MarkDelete;
    case DoUpdate(u, tuple) => UpdateOutcome(PAGE_SIZE, Recs(s, u.page), u.slot, tuple); hide Update;
  }

  function DoAll(s: Store, ops: seq<Op>): Store
    decreases ops
  {
    if ops == [] then s else DoAll(Do(s, ops[0]).0, ops[1..])
  }

  function Writes(s: Store, ops: seq<Op>): seq<Write>
    decreases ops
  {
    if ops == [] then []
    else
      var (s1, w) := Do(s, ops[0]);
      (if w.Some? then [w.value] else []) + Writes(s1, ops[1..])
  }

  // ---------------------------------------------------------------- undo

  /** One turn of the abort loop, and whether the call it makes meets its assertion or reports success. */
  function Undo(s: Store, w: Write): (Store, bool) {
    var rs := Recs(s, w.rid.page);
    match w
    case Inserted(rid) =>
      if rid.slot < |rs| && rs[rid.slot].Record? then (s[rid.page := ApplyDelete(rs, rid.slot)], true) else (s, false)
    case Deleted(rid) =>
      if rid.slot < |rs| then (s[rid.page := RollbackDelete(rs, rid.slot)], true) else (s, false)
    case Updated(rid, before) =>
      var (after, was) := Update(PAGE_SIZE, rs, rid.slot, before);
      (if was.Some? then s[rid.page := after] else s, was.Some?)
  }

  /** The whole loop, last write first. */
  function UndoAll(s: Store, ws: seq<Write>): Store {
    if ws == [] then s else Undo(UndoAll(s, ws[1..]), ws[0]).0
  }

  /** Every call of the loop succeeds. */
  predicate EveryUndoSucceeds(s: Store, ws: seq<Write>) {
    ws == [] || (EveryUndoSucceeds(s, ws[1..]) && Undo(UndoAll(s, ws[1..]), ws[0]).1)
  }

  /** The assertions inside the calls of the loop hold: rolled-back inserts find their tuple and
      rolled-back deletes find their slot. */
  predicate MeetsAssertions(s: Store, ws: seq<Write>) {
    ws == [] ||
    (MeetsAssertions(s, ws[1..]) && (ws[0].Updated? || Undo(UndoAll(s, ws[1..]), ws[0]).1))
  }

  /** The loop takes the last write off the end. */
  lemma {:induction false} UndoFromTheBack(s: Store, ws: seq<Write>, last: Write)
    ensures UndoAll(s, ws + [last]) == UndoAll(Undo(s, last).0, ws)
    ensures MeetsAssertions(s, ws + [last]) <==> (last.Updated? || Undo(s, last).1) && MeetsAssertions(Undo(s, last).0, ws)
  {
    if ws == [] {
      assert UndoAll(s, [last][1..]) == s;
      assert [] + [last] == [last];
    } else {
      assert (ws + [last])[1..] == ws[1..] + [last];
      UndoFromTheBack(s, ws[1..], last);
    }
  }

  // ---------------------------------------------------------------- conditions on the history

  /** Every mark-delete names a slot that the page has by the end. */
  predicate InRange(ops: seq<Op>, end: Store) {
    forall op :: op in ops && op.DoDelete? ==> op.rid.slot < |Recs(end, op.rid.page)|
  }

  /** The eight bytes of slack for every slot gained since, which only an update needs. */
  predicate HasSlack(s: Store, op: Op, count: nat) {
    op.DoUpdate? && Do(s, op).1.Some? ==>
      Free(PAGE_SIZE, Recs(s, op.rid.page)) >= SIZE_TUPLE * (count - |Recs(s, op.rid.page)|)
  }

  function Target(op: Op): PageId { if op.DoInsert? then op.page else op.rid.page }

  /** For every update that took place, the page had eight bytes free beforehand for each slot it
      has gained by the end. */
  predicate Slack(s: Store, ops: seq<Op>, end: Store)
    decreases ops
  {
    ops == [] ||
    (HasSlack(s, ops[0], |Recs(end, Target(ops[0]))|)
     && Slack(Do(s, ops[0]).0, ops[1..], end))
  }

  predicate Deletes(ops: seq<Op>, rid: Rid) { DoDelete(rid) in ops }

  // ---------------------------------------------------------------- the invariant of the loop

  /** What the page looks like to an undo that has come back to the moment it held rs: marks the
      transaction asked for are gone, and slots gained since are there but empty. */
  function Rewound(rs: seq<Record>, page: PageId, ops: seq<Op>, count: nat): (r: seq<Record>)
    requires |rs| <= count
    ensures |r| == count
  {
    seq(count, i requires 0 <= i < count => if i < |rs| then Unmarked(rs[i], Deletes(ops, Rid(page, i))) else Vacant)
  }

  function Unmarked(r: Record, clear: bool): Record {
    if r.Record? && clear then r.(deleted := false) else r
  }

  ghost predicate IsRewound(t: Store, s: Store, ops: seq<Op>, end: Store) {
    forall page :: |Recs(s, page)| <= |Recs(end, page)|
                   && Recs(t, page) == Rewound(Recs(s, page), page, ops, |Recs(end, page)|)
  }

  lemma DoKeepsOtherPages(s: Store, op: Op, page: PageId)
    requires page != (if op.DoInsert? then op.page else op.rid.page)
    ensures Recs(Do(s, op).0, page) == Recs(s, page)
  {}

  lemma DoNeverLosesSlots(s: Store, op: Op, page: PageId)
    ensures |Recs(Do(s, op).0, page)| >= |Recs(s, page)|
  {}

  lemma {:induction false} DoAllNeverLosesSlots(s: Store, ops: seq<Op>, page: PageId)
    ensures |Recs(DoAll(s, ops), page)| >= |Recs(s, page)|
    decreases ops
  {
    if ops != [] {
      DoNeverLosesSlots(s, ops[0], page);
      DoAllNeverLosesSlots(Do(s, ops[0]).0, ops[1..], page);
    }
  }

  lemma {:induction false} UsedSame(a: seq<Record>, b: seq<Record>)
    requires |a| <= |b| && forall i :: 0 <= i < |b| ==> SizeOf(b[i]) == if i < |a| then SizeOf(a[i]) else 0
    ensures Used(a) == Used(b)
  {
    if a != [] {
      UsedSame(a[1..], b[1..]);
    } else if b != [] {
      UsedSame([], b[1..]);
    }
  }

  /** Rewinding costs eight bytes for every slot gained, nothing else. */
  lemma RewoundFree(rs: seq<Record>, page: PageId, ops: seq<Op>, count: nat)
    requires |rs| <= count
    ensures Free(PAGE_SIZE, Rewound(rs, page, ops, count)) == Free(PAGE_SIZE, rs) - SIZE_TUPLE * (count - |rs|)
  {
    UsedSame(rs, Rewound(rs, page, ops, count));
  }

  /** A page the operation does not touch looks the same to the undo before and after it. */
  lemma RewoundElsewhere(rs: seq<Record>, page: PageId, op: Op, rest: seq<Op>, count: nat)
    requires |rs| <= count && (op.DoDelete? ==> op.rid.page != page)
    ensures Rewound(rs, page, [op] + rest, count) == Rewound(rs, page, rest, count)
  {
    forall i: nat ensures Deletes([op] + rest, Rid(page, i)) == Deletes(rest, Rid(page, i)) {}
  }

  lemma UndoInsertStep(s: Store, page: PageId, tuple: Bytes, rest: seq<Op>, count: nat)
    requires Do(s, DoInsert(page, tuple)).1.Some?
    requires |Recs(Do(s, DoInsert(page, tuple)).0, page)| <= count
    ensures var i, rs := Do(s, DoInsert(page, tuple)).1.value.rid.slot, Recs(s, page);
            var t := Rewound(Recs(Do(s, DoInsert(page, tuple)).0, page), page, rest, count);
            |rs| <= count && i < |t| && t[i].Record? && t[i := Vacant] == Rewound(rs, page, rest, count)
  {}

  lemma UndoDeleteStep(rs: seq<Record>, rid: Rid, rest: seq<Op>, count: nat)
    requires |rs| <= count && rid.slot < count
    ensures |MarkDelete(rs, rid.slot).0| == |rs|
    ensures var t := Rewound(MarkDelete(rs, rid.slot).0, rid.page, rest, count);
            Slotted.RollbackDelete(t, rid.slot) == Rewound(rs, rid.page, [DoDelete(rid)] + rest, count)
  {
    var ops := [DoDelete(rid)] + rest;
    var t := Rewound(MarkDelete(rs, rid.slot).0, rid.page, rest, count);
    forall i: nat ensures Deletes(ops, Rid(rid.page, i)) == (i == rid.slot || Deletes(rest, Rid(rid.page, i))) {}
    hide Deletes;
    assert Slotted.RollbackDelete(t, rid.slot) == Rewound(rs, rid.page, ops, count);
  }

  lemma UndoUpdateStep(s: Store, rid: Rid, tuple: Bytes, rest: seq<Op>, count: nat)
    requires Do(s, DoUpdate(rid, tuple)).1.Some?
    requires |Recs(Do(s, DoUpdate(rid, tuple)).0, rid.page)| <= count
    ensures var rs := Recs(s, rid.page);
            var t := Rewound(Recs(Do(s, DoUpdate(rid, tuple)).0, rid.page), rid.page, rest, count);
            var u := Update(PAGE_SIZE, t, rid.slot, Do(s, DoUpdate(rid, tuple)).1.value.before);
            && |rs| <= count
            && (u.1.Some? <==> Free(PAGE_SIZE, rs) >= SIZE_TUPLE * (count - |rs|))
            && (u.1.Some? ==> u.0 == Rewound(rs, rid.page, rest, count))
  {
    var rs, i := Recs(s, rid.page), rid.slot;
    var rs1 := rs[i := Record(tuple, false)];
    assert Recs(Do(s, DoUpdate(rid, tuple)).0, rid.page) == rs1;
    UsedUpdate(rs, i, Record(tuple, false));
    RewoundFree(rs1, rid.page, rest, count);
    hide Free, Used;
    var t := Rewound(rs1, rid.page, rest, count);
    assert t[i := Record(rs[i].data, false)] == Rewound(rs, rid.page, rest, count);
  }

  lemma UndoOnItsPage(t: Store, s: Store, op: Op, rest: seq<Op>, count: nat)
    requires op.DoDelete? ==> op.rid.slot < count
    requires |Recs(Do(s, op).0, Target(op))| <= count
    requires Recs(t, Target(op)) == Rewound(Recs(Do(s, op).0, Target(op)), Target(op), rest, count)
    ensures var w, rs, page := Do(s, op).1, Recs(s, Target(op)), Target(op);
            && |rs| <= count
            && (w.None? ==> Recs(t, page) == Rewound(rs, page, [op] + rest, count))
            && (w.Some? ==> w.value.rid.page == page && (Undo(t, w.value).1 <==> HasSlack(s, op, count)))
            && (w.Some? && HasSlack(s, op, count) ==>
                  Recs(Undo(t, w.value).0, page) == Rewound(rs, page, [op] + rest, count))
  {
    hide Rewound, Free, MarkDelete, RollbackDelete;
    DoNeverLosesSlots(s, op, Target(op));
    var w, rs := Do(s, op).1, Recs(s, Target(op));
    if !op.DoDelete? { RewoundElsewhere(rs, Target(op), op, rest, count); }
    match op {
      case DoInsert(page, tuple) => if w.Some? { UndoInsertStep(s, page, tuple, rest, count); }
      case DoDelete(rid) => UndoDeleteStep(rs, rid, rest, count);
      case DoUpdate(rid, tuple) => if w.Some? { UndoUpdateStep(s, rid, tuple, rest, count); }
    }
  }

  lemma UndoStep(t: Store, s: Store, op: Op, rest: seq<Op>, end: Store)
    requires op.DoDelete? ==> op.rid.slot < |Recs(end, op.rid.page)|
    requires IsRewound(t, Do(s, op).0, rest, end)
    ensures var w, count := Do(s, op).1, |Recs(end, Target(op))|;
            && (w.None? ==> IsRewound(t, s, [op] + rest, end))
            && (w.Some? ==> (Undo(t, w.value).1 <==> HasSlack(s, op, count)))
            && (w.Some? && HasSlack(s, op, count) ==> IsRewound(Undo(t, w.value).0, s, [op] + rest, end))
  {
    UndoOnItsPage(t, s, op, rest, |Recs(end, Target(op))|);
    forall page | page != Target(op)
      ensures |Recs(s, page)| <= |Recs(end, page)|
              && Recs(t, page) == Rewound(Recs(s, page), page, [op] + rest, |Recs(end, page)|)
    {
      DoKeepsOtherPages(s, op, page);
      RewoundElsewhere(Recs(s, page), page, op, rest, |Recs(end, page)|);
    }
    if Do(s, op).1.Some? {
      forall page | page != Target(op) ensures Recs(Undo(t, Do(s, op).1.value).0, page) == Recs(t, page) {
        UndoKeepsOtherPages(t, Do(s, op).1.value, page);
      }
    }
    hide Do, Undo, Rewound, Recs, HasSlack;
  }

  lemma UndoKeepsOtherPages(t: Store, w: Write, page: PageId)
    requires page != w.rid.page
    ensures Recs(Undo(t, w).0, page) == Recs(t, page)
  {}

  lemma {:induction false} UndoRewinds(s: Store, ops: seq<Op>)
    requires InRange(ops, DoAll(s, ops))
    ensures var end := DoAll(s, ops); var ws := Writes(s, ops);
            && (EveryUndoSucceeds(end, ws) <==> Slack(s, ops, end))
            && (Slack(s, ops, end) ==> IsRewound(UndoAll(end, ws), s, ops, end))
    decreases ops
  {
    hide Do, Undo, Rewound, Free;
    if ops == [] {
      RewoundSelf(s);
    } else {
      var (s1, w) := Do(s, ops[0]);
      UndoRewinds(s1, ops[1..]);
      var end := DoAll(s, ops);
      assert ops == [ops[0]] + ops[1..];
      if Slack(s1, ops[1..], end) {
        UndoStep(UndoAll(end, Writes(s1, ops[1..])), s, ops[0], ops[1..], end);
      }
      WritesUnfold(s, ops);
      DoWrites(s, ops[0]);
    }
  }

  lemma WritesUnfold(s: Store, ops: seq<Op>)
    requires ops != []
    ensures var (s1, w) := Do(s, ops[0]);
            if w.None? then Writes(s, ops) == Writes(s1, ops[1..])
            else Writes(s, ops) != [] && Writes(s, ops)[0] == w.value && Writes(s, ops)[1..] == Writes(s1, ops[1..])
  {
    var (s1, w) := Do(s, ops[0]);
    var rest := Writes(s1, ops[1..]);
    assert w.Some? ==> Writes(s, ops) == [w.value] + rest;
    assert w.None? ==> Writes(s, ops) == [] + rest;
  }

  lemma DoWrites(s: Store, op: Op)
    ensures op.DoDelete? ==> Do(s, op).1.Some?
    ensures Do(s, op).1.Some? ==> (Do(s, op).1.value.Updated? <==> op.DoUpdate?)
  {}

  lemma RewoundSelf(s: Store)
    ensures IsRewound(s, s, [], s)
  {
    forall page ensures Recs(s, page) == Rewound(Recs(s, page), page, [], |Recs(s, page)|) {}
  }

  /** The slots and their occupancy, which survive even undo calls that fail. */
  predicate SameOccupancy(t: seq<Record>, rs: seq<Record>) {
    |rs| <= |t| && forall i :: 0 <= i < |t| ==> (t[i].Vacant? <==> i >= |rs| || rs[i].Vacant?)
  }

  ghost predicate Matches(t: Store, s: Store, end: Store) {
    forall page :: SameOccupancy(Recs(t, page), Recs(s, page)) && |Recs(t, page)| == |Recs(end, page)|
  }

  lemma UndoOccupancy(t: Store, s: Store, op: Op, end: Store)
    requires Matches(t, Do(s, op).0, end)
    ensures var w := Do(s, op).1;
            && Matches(if w.Some? then Undo(t, w.value).0 else t, s, end)
            && (w.Some? && !op.DoUpdate? ==>
                 (Undo(t, w.value).1 <==> (op.DoDelete? ==> op.rid.slot < |Recs(end, op.rid.page)|)))
  {
    var w := Do(s, op).1;
    var t1 := if w.Some? then Undo(t, w.value).0 else t;
    assert SameOccupancy(Recs(t, Target(op)), Recs(Do(s, op).0, Target(op)));
    UndoOnPageOccupancy(t, s, op);
    forall page ensures SameOccupancy(Recs(t1, page), Recs(s, page)) && |Recs(t1, page)| == |Recs(end, page)| {
      if page != Target(op) {
        DoKeepsOtherPages(s, op, page);
        if w.Some? { UndoKeepsOtherPages(t, w.value, page); }
      }
      assert SameOccupancy(Recs(t, page), Recs(Do(s, op).0, page));
    }
    hide Do, Undo, SameOccupancy, Recs;
  }

  lemma UndoOnPageOccupancy(t: Store, s: Store, op: Op)
    requires SameOccupancy(Recs(t, Target(op)), Recs(Do(s, op).0, Target(op)))
    ensures var w := Do(s, op).1; var t1 := if w.Some? then Undo(t, w.value).0 else t;
            && SameOccupancy(Recs(t1, Target(op)), Recs(s, Target(op)))
            && |Recs(t1, Target(op))| == |Recs(t, Target(op))|
            && (w.Some? ==> w.value.rid.page == Target(op))
            && (w.Some? && !op.DoUpdate? ==> (Undo(t, w.value).1 <==> (op.DoDelete? ==> op.rid.slot < |Recs(t, Target(op))|)))
  {
    hide Free;
  }

  /** Abort trips no assertion exactly when every slot the transaction tried to mark-delete exists
      in the end. */
  lemma {:induction false} AbortMeetsAssertionsIff(s: Store, ops: seq<Op>)
    ensures MeetsAssertions(DoAll(s, ops), Writes(s, ops)) <==> InRange(ops, DoAll(s, ops))
    ensures Matches(UndoAll(DoAll(s, ops), Writes(s, ops)), s, DoAll(s, ops))
    decreases ops
  {
    hide Do, Undo;
    if ops != [] {
      var s1 := Do(s, ops[0]).0;
      AbortMeetsAssertionsIff(s1, ops[1..]);
      UndoOccupancy(UndoAll(DoAll(s, ops), Writes(s1, ops[1..])), s, ops[0], DoAll(s, ops));
      WritesUnfold(s, ops);
      DoWrites(s, ops[0]);
      InRangeUnfolds(ops, DoAll(s, ops));
    }
  }

  lemma InRangeUnfolds(ops: seq<Op>, end: Store)
    requires ops != []
    ensures InRange(ops, end)
       <==> (ops[0].DoDelete? ==> ops[0].rid.slot < |Recs(end, ops[0].rid.page)|) && InRange(ops[1..], end)
  {
    assert forall op :: op in ops <==> op == ops[0] || op in ops[1..];
  }

  lemma {:induction false} SuccessMeetsAssertions(s: Store, ws: seq<Write>)
    ensures EveryUndoSucceeds(s, ws) ==> MeetsAssertions(s, ws)
  {
    if ws != [] { SuccessMeetsAssertions(s, ws[1..]); }
  }

  /** Every call the abort loop makes succeeds exactly when, besides, each update had slack for the
      slots its page gained afterwards. */
  lemma EveryUndoSucceedsIff(s: Store, ops: seq<Op>)
    ensures EveryUndoSucceeds(DoAll(s, ops), Writes(s, ops))
       <==> InRange(ops, DoAll(s, ops)) && Slack(s, ops, DoAll(s, ops))
  {
    AbortMeetsAssertionsIff(s, ops);
    SuccessMeetsAssertions(DoAll(s, ops), Writes(s, ops));
    if InRange(ops, DoAll(s, ops)) { UndoRewinds(s, ops); }
  }

  /** If they all succeed, abort restores the map from RIDs to bytes and flags exactly when the
      transaction never tried to mark-delete a tuple that carried a mark before it began. */
  lemma AbortRestoresIff(s: Store, ops: seq<Op>)
    requires InRange(ops, DoAll(s, ops)) && Slack(s, ops, DoAll(s, ops))
    ensures SameTuples(UndoAll(DoAll(s, ops), Writes(s, ops)), s)
       <==> forall rid :: Deletes(ops, rid) ==> !(At(s, rid).Record? && At(s, rid).deleted)
  {
    UndoRewinds(s, ops);
    var end, t := DoAll(s, ops), UndoAll(DoAll(s, ops), Writes(s, ops));
    forall rid ensures At(t, rid) == Unmarked(At(s, rid), Deletes(ops, rid)) {
      assert Recs(t, rid.page) == Rewound(Recs(s, rid.page), rid.page, ops, |Recs(end, rid.page)|);
      assert rid == Rid(rid.page, rid.slot);
    }
    hide At, Deletes, DoAll, UndoAll, Writes;
  }

  /** No update that took place made its tuple shorter. */
  predicate NeverShrinks(s: Store, ops: seq<Op>)
    decreases ops
  {
    ops == [] ||
    ((ops[0].DoUpdate? && Do(s, ops[0]).1.Some? ==> |ops[0].tuple| >= |Do(s, ops[0]).1.value.before|)
     && NeverShrinks(Do(s, ops[0]).0, ops[1..]))
  }

  /** The slot array of no page has run into its tuples. */
  ghost predicate Fits(s: Store) { forall page :: Free(PAGE_SIZE, Recs(s, page)) >= 0 }

  lemma InsertUses(rs: seq<Record>, tuple: Bytes)
    ensures var r := Insert(PAGE_SIZE, rs, tuple);
            r.1.Some? ==> Free(PAGE_SIZE, r.0) == Free(PAGE_SIZE, rs) - |tuple| - SIZE_TUPLE * (|r.0| - |rs|)
                          && Free(PAGE_SIZE, r.0) >= 0
  {
    var i := FirstVacant(rs);
    if i < |rs| { UsedUpdate(rs, i, Record(tuple, false)); } else { UsedConcat(rs, [Record(tuple, false)]); }
  }

  /** What a call leaves free on each page. */
  lemma DoUses(s: Store, op: Op, page: PageId)
    ensures var s1 := Do(s, op).0;
            && (Free(PAGE_SIZE, Recs(s, page)) >= 0 ==> Free(PAGE_SIZE, Recs(s1, page)) >= 0)
            && ((op.DoUpdate? && Do(s, op).1.Some? ==> |op.tuple| >= |Do(s, op).1.value.before|) ==>
                 Free(PAGE_SIZE, Recs(s, page)) - Free(PAGE_SIZE, Recs(s1, page))
                   >= SIZE_TUPLE * (|Recs(s1, page)| - |Recs(s, page)|))
  {
    match op {
      case DoInsert(q, tuple) => InsertUses(Recs(s, q), tuple);
      case DoDelete(rid) =>
        var rs := Recs(s, rid.page);
        if MarkDelete(rs, rid.slot).1 { UsedUpdate(rs, rid.slot, rs[rid.slot].(deleted := true)); }
      case DoUpdate(rid, tuple) =>
        var rs := Recs(s, rid.page);
        if Do(s, op).1.Some? { UsedUpdate(rs, rid.slot, Record(tuple, false)); }
    }
  }

  lemma {:induction false} DoAllUses(s: Store, ops: seq<Op>, page: PageId)
    requires NeverShrinks(s, ops)
    ensures Free(PAGE_SIZE, Recs(s, page)) - Free(PAGE_SIZE, Recs(DoAll(s, ops), page))
              >= SIZE_TUPLE * (|Recs(DoAll(s, ops), page)| - |Recs(s, page)|)
    decreases ops
  {
    hide Do, Free;
    if ops != [] {
      DoUses(s, ops[0], page);
      DoAllUses(Do(s, ops[0]).0, ops[1..], page);
    }
  }

  lemma {:induction false} DoAllFits(s: Store, ops: seq<Op>)
    requires Fits(s)
    ensures Fits(DoAll(s, ops))
    decreases ops
  {
    hide Do, Free;
    if ops != [] {
      forall page ensures Free(PAGE_SIZE, Recs(Do(s, ops[0]).0, page)) >= 0 { DoUses(s, ops[0], page); }
      DoAllFits(Do(s, ops[0]).0, ops[1..]);
    }
  }

  /** Size-preserving and growing updates never lack slack. */
  lemma {:induction false} GrowingUpdatesHaveSlack(s: Store, ops: seq<Op>)
    requires Fits(s) && NeverShrinks(s, ops)
    ensures Slack(s, ops, DoAll(s, ops))
    decreases ops
  {
    hide Do, Free;
    if ops != [] {
      forall page ensures Free(PAGE_SIZE, Recs(Do(s, ops[0]).0, page)) >= 0 { DoUses(s, ops[0], page); }
      GrowingUpdatesHaveSlack(Do(s, ops[0]).0, ops[1..]);
      if ops[0].DoUpdate? {
        DoAllUses(s, ops, ops[0].rid.page);
        DoAllFits(s, ops);
      }
    }
  }

  /** On a full page, shortening a tuple and inserting into the room it leaves cannot be undone: the
      slot the insert added stays, and the long tuple no longer fits beside it. */
  lemma ShrinkThenInsertIsNotRestored(page: PageId, long: Bytes, short: Bytes, other: Bytes)
    requires |long| == PAGE_SIZE - 32 && |short| == PAGE_SIZE - 96 && |other| == 16
    ensures var s: Store := map[page := [Record(long, false)]];
            var ops := [DoUpdate(Rid(page, 0), short), DoInsert(page, other)];
            && Fits(s) && InRange(ops, DoAll(s, ops))
            && At(UndoAll(DoAll(s, ops), Writes(s, ops)), Rid(page, 0)) == Record(short, false)
            && !SameTuples(UndoAll(DoAll(s, ops), Writes(s, ops)), s)
  {
    var s: Store := map[page := [Record(long, false)]];
    var r := Rid(page, 0);
    var up, ins := DoUpdate(r, short), DoInsert(page, other);
    var ops := [up, ins];
    assert Used([Record(long, false)]) == PAGE_SIZE - 32;
    assert Used([Record(short, false)]) == PAGE_SIZE - 96;
    var s1: Store := s[page := [Record(short, false)]];
    assert [Record(long, false)][0 := Record(short, false)] == [Record(short, false)];
    assert Do(s, up) == (s1, Some(Updated(r, long)));
    var two := [Record(short, false)] + [Record(other, false)];
    assert FirstVacant([Record(short, false)]) == 1;
    var s2: Store := s1[page := two];
    assert Do(s1, ins) == (s2, Some(Inserted(Rid(page, 1))));
    assert ops[1..] == [ins] && [ins][1..] == [];
    assert DoAll(s1, [ins]) == DoAll(s2, []);
    assert DoAll(s, ops) == DoAll(s1, [ins]) == s2;
    var w0, w1 := Updated(r, long), Inserted(Rid(page, 1));
    assert Writes(s2, []) == [];
    assert Writes(s1, [ins]) == [w1];
    assert Writes(s, ops) == [w0, w1];
    var back := [Record(short, false)] + [Vacant];
    assert two[1 := Vacant] == back;
    var s3: Store := s2[page := back];
    assert UndoAll(s2, [w1]) == Undo(s2, w1).0 == s3;
    UsedConcat([Record(short, false)], [Vacant]);
    assert Used([Vacant]) == 0;
    assert Free(PAGE_SIZE, back) == 56;
    assert Undo(s3, w0) == (s3, false);
    assert [w0, w1][1..] == [w1];
    assert UndoAll(s2, [w0, w1]) == s3;
    assert At(s3, r) == Record(short, false) && At(s, r) == Record(long, false);
  }
}
