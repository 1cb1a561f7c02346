/** Abort when some of its undo calls fail: what is still restored, and why failures of later updates
    do no harm. */
module Restore {
  import opened Common
  import opened Slotted
  import opened Rollback

  // ---------------------------------------------------------------- conditions on the history

  /** The tuple this call settles for the undo: one it inserts, or one it updates. */
  function Settles(s: Store, op: Op): set<Rid> {
    match Do(s, op).1
    case Some(Inserted(rid)) => {rid}
    case Some(Updated(rid, _)) => {rid}
    case _ => {}
  }

  /** The first update of every tuple the transaction did not insert itself had eight bytes free
      beforehand for each slot its page gained by the end. Later updates need nothing. */
  predicate FirstSlack(s: Store, ops: seq<Op>, end: Store, settled: set<Rid>)
    decreases ops
  {
    ops == [] ||
    ((Settles(s, ops[0]) !! settled ==> HasSlack(s, ops[0], |Recs(end, Target(ops[0]))|))
     && FirstSlack(Do(s, ops[0]).0, ops[1..], end, settled + Settles(s, ops[0])))
  }

  /** No tuple is updated twice, nor one that the transaction inserted. */
  predicate UpdatesOnce(s: Store, ops: seq<Op>, settled: set<Rid>)
    decreases ops
  {
    ops == [] ||
    ((ops[0].DoUpdate? ==> Settles(s, ops[0]) !! settled)
     && UpdatesOnce(Do(s, ops[0]).0, ops[1..], settled + Settles(s, ops[0])))
  }

  // ---------------------------------------------------------------- the invariant of the loop

  /** An undone tuple: there or not as it was, its mark as it was but for marks the transaction asked
      for, and never larger than it was. */
  predicate Shrunk(t: Record, s: Record, clear: bool) {
    && (t.Vacant? <==> s.Vacant?)
    && (t.Record? ==> |t.data| <= |s.data| && t.deleted == (s.deleted && !clear))
  }

  function Slot(rs: seq<Record>, i: nat): Record { if i < |rs| then rs[i] else Vacant }

  predicate PageShrunk(t: seq<Record>, s: seq<Record>, page: PageId, ops: seq<Op>) {
    && |s| <= |t| && Free(PAGE_SIZE, t) >= 0
    && forall i: nat :: i < |t| ==> Shrunk(t[i], Slot(s, i), Deletes(ops, Rid(page, i)))
  }

  ghost predicate NoLarger(t: Store, s: Store, ops: seq<Op>, end: Store) {
    forall page :: PageShrunk(Recs(t, page), Recs(s, page), page, ops) && |Recs(t, page)| == |Recs(end, page)|
  }

  lemma {:induction false} UsedNoLarger(a: seq<Record>, b: seq<Record>)
    requires |a| <= |b| && forall i: nat :: i < |b| ==> SizeOf(b[i]) <= SizeOf(Slot(a, i))
    ensures Used(b) <= Used(a)
  {
    if b != [] {
      assert SizeOf(b[0]) <= SizeOf(Slot(a, 0));
      if a != [] {
        forall i: nat | i < |b| - 1 ensures SizeOf(b[1..][i]) <= SizeOf(Slot(a[1..], i)) {
          assert SizeOf(b[i + 1]) <= SizeOf(Slot(a, i + 1));
        }
        UsedNoLarger(a[1..], b[1..]);
      } else {
        forall i: nat | i < |b| - 1 ensures SizeOf(b[1..][i]) <= SizeOf(Slot([], i)) {
          assert SizeOf(b[i + 1]) <= SizeOf(Slot(a, i + 1));
        }
        UsedNoLarger([], b[1..]);
      }
    }
  }

  lemma ShrunkElsewhere(t: seq<Record>, s: seq<Record>, page: PageId, op: Op, rest: seq<Op>)
    requires PageShrunk(t, s, page, rest) && (op.DoDelete? ==> op.rid.page != page)
    ensures PageShrunk(t, s, page, [op] + rest)
  {
    forall i: nat ensures Deletes([op] + rest, Rid(page, i)) == Deletes(rest, Rid(page, i)) {}
    hide Deletes;
  }

  /** Changing one slot on both sides. */
  lemma ShrunkUpdate(t: seq<Record>, s: seq<Record>, page: PageId, ops: seq<Op>, i: nat, x: Record, s0: seq<Record>)
    requires PageShrunk(t, s, page, ops) && i < |t| && |s0| <= |s|
    requires forall j: nat :: j != i ==> Slot(s0, j) == Slot(s, j)
    requires Shrunk(x, Slot(s0, i), Deletes(ops, Rid(page, i))) && Free(PAGE_SIZE, t) + SizeOf(t[i]) >= SizeOf(x)
    ensures PageShrunk(t[i := x], s0, page, ops)
  {
    UsedUpdate(t, i, x);
    hide Deletes, Used;
    forall j: nat | j < |t| ensures Shrunk(t[i := x][j], Slot(s0, j), Deletes(ops, Rid(page, j))) {
      if j != i { assert Shrunk(t[j], Slot(s, j), Deletes(ops, Rid(page, j))); }
    }
  }

  lemma InsertChangesOneSlot(rs: seq<Record>, tuple: Bytes)
    requires Insert(PAGE_SIZE, rs, tuple).1.Some?
    ensures var (r, i) := Insert(PAGE_SIZE, rs, tuple);
            && |rs| <= |r| && i.value < |r| && r[i.value] == Record(tuple, false) && Slot(rs, i.value) == Vacant
            && forall j: nat :: j != i.value ==> Slot(rs, j) == Slot(r, j)
  {}

  lemma UpdateChangesOneSlot(rs: seq<Record>, i: nat, x: Record)
    requires i < |rs|
    ensures forall j: nat :: j != i ==> Slot(rs, j) == Slot(rs[i := x], j)
  {}

  lemma UndoInsertShrinks(t: seq<Record>, rs: seq<Record>, page: PageId, tuple: Bytes, rest: seq<Op>)
    requires var (r, i) := Insert(PAGE_SIZE, rs, tuple); i.Some? && PageShrunk(t, r, page, rest)
    ensures var i := Insert(PAGE_SIZE, rs, tuple).1.value;
            i < |t| && t[i].Record? && PageShrunk(t[i := Vacant], rs, page, [DoInsert(page, tuple)] + rest)
  {
    InsertChangesOneSlot(rs, tuple);
    hide Insert, Free, Used, Deletes;
    var (r, i) := Insert(PAGE_SIZE, rs, tuple);
    assert Shrunk(t[i.value], Slot(r, i.value), Deletes(rest, Rid(page, i.value)));
    ShrunkUpdate(t, r, page, rest, i.value, Vacant, rs);
    ShrunkElsewhere(t[i.value := Vacant], rs, page, DoInsert(page, tuple), rest);
  }

  lemma UndoDeleteShrinks(t: seq<Record>, rs: seq<Record>, rid: Rid, rest: seq<Op>)
    requires PageShrunk(t, MarkDelete(rs, rid.slot).0, rid.page, rest) && rid.slot < |t|
    ensures PageShrunk(Slotted.RollbackDelete(t, rid.slot), rs, rid.page, [DoDelete(rid)] + rest)
  {
    var ops, i := [DoDelete(rid)] + rest, rid.slot;
    var r := MarkDelete(rs, i).0;
    forall j: nat ensures Deletes(ops, Rid(rid.page, j)) == (j == i || Deletes(rest, Rid(rid.page, j))) {}
    hide Deletes;
    UsedUpdate(t, i, if t[i].Record? then t[i].(deleted := false) else t[i]);
    var t1 := Slotted.RollbackDelete(t, i);
    hide Used;
    forall j: nat | j < |t1| ensures Shrunk(t1[j], Slot(rs, j), Deletes(ops, Rid(rid.page, j))) {
      assert Shrunk(t[j], Slot(r, j), Deletes(rest, Rid(rid.page, j)));
    }
  }

  /** Undoing an update: with slack it succeeds, and where it fails the tuple that stays is smaller
      than the one it should have become. */
  lemma UndoUpdateShrinks(t: seq<Record>, rs: seq<Record>, rid: Rid, tuple: Bytes, rest: seq<Op>)
    requires var (r, before) := Update(PAGE_SIZE, rs, rid.slot, tuple); before.Some? && PageShrunk(t, r, rid.page, rest)
    ensures var before := rs[rid.slot].data; var (t1, was) := Update(PAGE_SIZE, t, rid.slot, before);
            && rid.slot < |rs| <= |t| && t[rid.slot].Record?
            && PageShrunk(t1, rs, rid.page, [DoUpdate(rid, tuple)] + rest)
            && (Free(PAGE_SIZE, rs) >= SIZE_TUPLE * (|t| - |rs|) ==> was.Some?)
            && (was.None? ==> t1 == t && |t[rid.slot].data| < |before|)
            && (was.Some? ==> t1 == t[rid.slot := Record(before, false)])
  {
    var i, before := rid.slot, rs[rid.slot].data;
    var r := rs[i := Record(tuple, false)];
    assert Shrunk(t[i], r[i], Deletes(rest, Rid(rid.page, i)));
    UpdateFitsWithSlack(t, rs, rid, tuple, rest);
    UpdateChangesOneSlot(rs, i, Record(tuple, false));
    var (t1, was) := Update(PAGE_SIZE, t, i, before);
    if was.Some? {
      ShrunkUpdate(t, r, rid.page, rest, i, Record(before, false), rs);
    } else {
      assert t[i := t[i]] == t;
      ShrunkUpdate(t, r, rid.page, rest, i, t[i], rs);
    }
    ShrunkElsewhere(t1, rs, rid.page, DoUpdate(rid, tuple), rest);
  }

  /** The other tuples of the page are no larger than they were, so what the slots gained cost is all
      that can be missing. */
  lemma UpdateFitsWithSlack(t: seq<Record>, rs: seq<Record>, rid: Rid, tuple: Bytes, rest: seq<Op>)
    requires rid.slot < |rs| && rs[rid.slot].Record? && PageShrunk(t, rs[rid.slot := Record(tuple, false)], rid.page, rest)
    ensures rid.slot < |t| && Free(PAGE_SIZE, rs) >= SIZE_TUPLE * (|t| - |rs|) ==>
              Free(PAGE_SIZE, t) + SizeOf(t[rid.slot]) >= |rs[rid.slot].data|
  {
    var i := rid.slot;
    var r := rs[i := Record(tuple, false)];
    UsedUpdate(t, i, Vacant);
    UsedUpdate(rs, i, Vacant);
    hide Used;
    var t0, rs0 := t[i := Vacant], rs[i := Vacant];
    forall j: nat | j < |t0| ensures SizeOf(t0[j]) <= SizeOf(Slot(rs0, j)) {
      assert Shrunk(t[j], Slot(r, j), Deletes(rest, Rid(rid.page, j)));
    }
    UsedNoLarger(rs0, t0);
  }

  /** The state after one more turn of the loop. */
  function Undone(t: Store, s: Store, op: Op): Store {
    match Do(s, op).1
    case Some(w) => Undo(t, w).0
    case None => t
  }

  lemma UndoneOnItsPage(t: Store, s: Store, op: Op, rest: seq<Op>)
    requires PageShrunk(Recs(t, Target(op)), Recs(Do(s, op).0, Target(op)), Target(op), rest)
    requires op.DoDelete? ==> op.rid.slot < |Recs(t, op.rid.page)|
    ensures PageShrunk(Recs(Undone(t, s, op), Target(op)), Recs(s, Target(op)), Target(op), [op] + rest)
    ensures |Recs(Undone(t, s, op), Target(op))| == |Recs(t, Target(op))|
  {
    hide Free, Deletes, PageShrunk;
    var rs, tp := Recs(s, Target(op)), Recs(t, Target(op));
    match op {
      case DoInsert(page, tuple) =>
        if Do(s, op).1.Some? { UndoInsertShrinks(tp, rs, page, tuple, rest); } else { ShrunkElsewhere(tp, rs, page, op, rest); }
      case DoDelete(rid) => UndoDeleteShrinks(tp, rs, rid, rest);
      case DoUpdate(rid, tuple) =>
        if Do(s, op).1.Some? { UndoUpdateShrinks(tp, rs, rid, tuple, rest); } else { ShrunkElsewhere(tp, rs, rid.page, op, rest); }
    }
  }

  lemma UndoneKeepsOtherPages(t: Store, s: Store, op: Op, page: PageId)
    requires page != Target(op)
    ensures Recs(Undone(t, s, op), page) == Recs(t, page) && Recs(Do(s, op).0, page) == Recs(s, page)
  {}

  lemma UndoneIsNoLarger(t: Store, s: Store, op: Op, rest: seq<Op>, end: Store)
    requires NoLarger(t, Do(s, op).0, rest, end) && (op.DoDelete? ==> op.rid.slot < |Recs(end, op.rid.page)|)
    ensures NoLarger(Undone(t, s, op), s, [op] + rest, end)
  {
    UndoneOnItsPage(t, s, op, rest);
    hide Undone, PageShrunk, Do;
    forall page | page != Target(op)
      ensures PageShrunk(Recs(Undone(t, s, op), page), Recs(s, page), page, [op] + rest)
              && |Recs(Undone(t, s, op), page)| == |Recs(end, page)|
    {
      UndoneKeepsOtherPages(t, s, op, page);
      ShrunkElsewhere(Recs(t, page), Recs(s, page), page, op, rest);
    }
  }

  // ---------------------------------------------------------------- one tuple through one turn

  /** A tuple this call neither inserted nor updated. */
  lemma UndoneElsewhere(t: Store, s: Store, op: Op, rest: seq<Op>, end: Store, rid: Rid)
    requires NoLarger(t, Do(s, op).0, rest, end) && (op.DoDelete? ==> op.rid.slot < |Recs(end, op.rid.page)|)
    requires rid !in Settles(s, op)
    ensures At(t, rid) == Unmarked(At(Do(s, op).0, rid), Deletes(rest, rid))
       ==> At(Undone(t, s, op), rid) == Unmarked(At(s, rid), Deletes([op] + rest, rid))
    ensures SizeOf(At(Undone(t, s, op), rid)) == SizeOf(At(t, rid)) && SizeOf(At(s, rid)) == SizeOf(At(Do(s, op).0, rid))
  {
    hide Free, PageShrunk, NoLarger;
    DeletesUnfold(op, rest, rid);
    if rid.page != Target(op) {
      UndoneKeepsOtherPages(t, s, op, rid.page);
    } else {
      match op {
        case DoInsert(page, tuple) => if Do(s, op).1.Some? { InsertChangesOneSlot(Recs(s, page), tuple); }
        case DoDelete(r) =>
        case DoUpdate(r, tuple) =>
      }
      hide Deletes, Insert;
    }
  }

  lemma DeletesUnfold(op: Op, rest: seq<Op>, rid: Rid)
    ensures Deletes([op] + rest, rid) <==> op == DoDelete(rid) || Deletes(rest, rid)
  {}

  /** A tuple this call inserted is gone again; one it updated is back as it was if the undo had the
      room, and is otherwise smaller than it was. */
  lemma UndoneThere(t: Store, s: Store, op: Op, rest: seq<Op>, end: Store, rid: Rid)
    requires NoLarger(t, Do(s, op).0, rest, end) && rid in Settles(s, op)
    ensures op.DoInsert? ==> At(Undone(t, s, op), rid) == At(s, rid) == Vacant
    ensures op.DoUpdate? ==>
      && At(s, rid).Record? && !At(s, rid).deleted && At(Undone(t, s, op), rid).Record?
      && (HasSlack(s, op, |Recs(end, Target(op))|) ==> Undo(t, Do(s, op).1.value).1)
      && (Undo(t, Do(s, op).1.value).1 ==> At(Undone(t, s, op), rid) == At(s, rid))
      && (!Undo(t, Do(s, op).1.value).1 ==> |At(Undone(t, s, op), rid).data| < |At(s, rid).data|)
  {
    var page := Target(op);
    assert PageShrunk(Recs(t, page), Recs(Do(s, op).0, page), page, rest) && |Recs(t, page)| == |Recs(end, page)|;
    hide Free, PageShrunk, NoLarger;
    match op {
      case DoInsert(_, tuple) =>
        InsertChangesOneSlot(Recs(s, page), tuple);
        UndoInsertShrinks(Recs(t, page), Recs(s, page), page, tuple, rest);
        hide Insert;
      case DoDelete(r) =>
      case DoUpdate(r, tuple) =>
        UndoUpdateShrinks(Recs(t, page), Recs(s, page), r, tuple, rest);
    }
  }

  // ---------------------------------------------------------------- whole histories

  lemma StartsNoLarger(s: Store)
    requires Fits(s)
    ensures NoLarger(s, s, [], s)
  {
    hide Free;
  }

  lemma UndoAllUnfolds(s: Store, ops: seq<Op>)
    requires ops != []
    ensures var s1, end := Do(s, ops[0]).0, DoAll(s, ops);
            UndoAll(end, Writes(s, ops)) == Undone(UndoAll(end, Writes(s1, ops[1..])), s, ops[0])
    ensures DoAll(s, ops) == DoAll(Do(s, ops[0]).0, ops[1..])
  {
    WritesUnfold(s, ops);
    hide Do, Undo;
  }

  /** Whatever fails, no tuple ends up larger than it was, and no page overflows. */
  lemma {:induction false} AbortLeavesNoLarger(s: Store, ops: seq<Op>)
    requires Fits(s) && InRange(ops, DoAll(s, ops))
    ensures NoLarger(UndoAll(DoAll(s, ops), Writes(s, ops)), s, ops, DoAll(s, ops))
    decreases ops
  {
    hide Do, Undone, NoLarger, Fits;
    if ops == [] {
      StartsNoLarger(s);
    } else {
      var s1, end := Do(s, ops[0]).0, DoAll(s, ops);
      DoneFits(s, ops[0]);
      InRangeUnfolds(ops, end);
      AbortLeavesNoLarger(s1, ops[1..]);
      UndoAllUnfolds(s, ops);
      UndoneIsNoLarger(UndoAll(end, Writes(s1, ops[1..])), s, ops[0], ops[1..], end);
      assert ops == [ops[0]] + ops[1..];
    }
  }

  lemma DoneFits(s: Store, op: Op)
    requires Fits(s)
    ensures Fits(Do(s, op).0)
  {
    hide Do, Free;
    forall page ensures Free(PAGE_SIZE, Recs(Do(s, op).0, page)) >= 0 { DoUses(s, op, page); }
  }

  lemma {:induction false} FirstSlackRestoresTuple(s: Store, ops: seq<Op>, settled: set<Rid>, rid: Rid)
    requires Fits(s) && InRange(ops, DoAll(s, ops)) && FirstSlack(s, ops, DoAll(s, ops), settled) && rid !in settled
    ensures At(UndoAll(DoAll(s, ops), Writes(s, ops)), rid) == Unmarked(At(s, rid), Deletes(ops, rid))
    decreases ops
  {
    hide Do, Undone, NoLarger, Fits, At, Undo, HasSlack, Deletes, Settles;
    if ops == [] {
      NothingDeleted(rid);
    } else {
      var s1, end := Do(s, ops[0]).0, DoAll(s, ops);
      var t := UndoAll(end, Writes(s1, ops[1..]));
      DoneFits(s, ops[0]);
      InRangeUnfolds(ops, end);
      AbortLeavesNoLarger(s1, ops[1..]);
      UndoAllUnfolds(s, ops);
      assert ops == [ops[0]] + ops[1..];
      if rid !in Settles(s, ops[0]) {
        FirstSlackRestoresTuple(s1, ops[1..], settled + Settles(s, ops[0]), rid);
        UndoneElsewhere(t, s, ops[0], ops[1..], end, rid);
      } else {
        SettlesOne(s, ops[0], rid);
        UndoneThere(t, s, ops[0], ops[1..], end, rid);
      }
    }
  }

  lemma NothingDeleted(rid: Rid)
    ensures !Deletes([], rid)
  {}

  lemma SettlesOne(s: Store, op: Op, rid: Rid)
    requires rid in Settles(s, op)
    ensures Settles(s, op) == {rid} && (op.DoInsert? || op.DoUpdate?) && Do(s, op).1.Some?
  {}

  /** Abort restores the map from RIDs to bytes and flags as soon as the first update of every tuple
      it did not insert had slack: given that, exactly when no mark-delete named a tuple that carried a
      mark before. */
  lemma FirstSlackRestoresIff(s: Store, ops: seq<Op>)
    requires Fits(s) && InRange(ops, DoAll(s, ops)) && FirstSlack(s, ops, DoAll(s, ops), {})
    ensures SameTuples(UndoAll(DoAll(s, ops), Writes(s, ops)), s)
       <==> forall rid :: Deletes(ops, rid) ==> !(At(s, rid).Record? && At(s, rid).deleted)
  {
    var t := UndoAll(DoAll(s, ops), Writes(s, ops));
    forall rid ensures At(t, rid) == Unmarked(At(s, rid), Deletes(ops, rid)) {
      FirstSlackRestoresTuple(s, ops, {}, rid);
    }
    hide At, Deletes, DoAll, UndoAll, Writes;
  }

  // ---------------------------------------------------------------- tuples updated once: the exact condition

  /** If some undo fails, some tuple is left smaller than it was. */
  lemma {:induction false} FailureLeavesSmaller(s: Store, ops: seq<Op>, settled: set<Rid>) returns (rid: Rid)
    requires Fits(s) && InRange(ops, DoAll(s, ops)) && UpdatesOnce(s, ops, settled)
    requires !EveryUndoSucceeds(DoAll(s, ops), Writes(s, ops))
    ensures rid !in settled && SizeOf(At(UndoAll(DoAll(s, ops), Writes(s, ops)), rid)) < SizeOf(At(s, rid))
    decreases ops
  {
    hide Do, Undone, NoLarger, Fits, At, Undo, HasSlack, Deletes, Settles;
    var s1, end := Do(s, ops[0]).0, DoAll(s, ops);
    var rest := Writes(s1, ops[1..]);
    var t := UndoAll(end, rest);
    DoneFits(s, ops[0]);
    InRangeUnfolds(ops, end);
    AbortLeavesNoLarger(s1, ops[1..]);
    UndoAllUnfolds(s, ops);
    WritesUnfold(s, ops);
    if !EveryUndoSucceeds(end, rest) {
      rid := FailureLeavesSmaller(s1, ops[1..], settled + Settles(s, ops[0]));
      UndoneElsewhere(t, s, ops[0], ops[1..], end, rid);
    } else {
      UndoRewinds(s1, ops[1..]);
      rid := FailedUndoIsUpdate(t, s, ops[0], ops[1..], end);
      SettlesOne(s, ops[0], rid);
      UndoneThere(t, s, ops[0], ops[1..], end, rid);
    }
  }

  /** Rolled-back inserts and deletes succeed; what fails is the undo of an update. */
  lemma FailedUndoIsUpdate(t: Store, s: Store, op: Op, rest: seq<Op>, end: Store) returns (rid: Rid)
    requires NoLarger(t, Do(s, op).0, rest, end) && Do(s, op).1.Some? && !Undo(t, Do(s, op).1.value).1
    requires op.DoDelete? ==> op.rid.slot < |Recs(end, op.rid.page)|
    ensures op.DoUpdate? && rid in Settles(s, op)
  {
    var page := Target(op);
    assert PageShrunk(Recs(t, page), Recs(Do(s, op).0, page), page, rest) && |Recs(t, page)| == |Recs(end, page)|;
    hide Free, PageShrunk, NoLarger, Update;
    if op.DoInsert? {
      UndoInsertShrinks(Recs(t, page), Recs(s, page), page, op.tuple, rest);
    }
    hide Insert;
    rid := Do(s, op).1.value.rid;
  }

  /** For histories that update no tuple twice, nor one they inserted: abort restores the map exactly
      when every update had slack and no mark-delete named a tuple already marked. */
  lemma SingleUpdatesRestoreIff(s: Store, ops: seq<Op>)
    requires Fits(s) && InRange(ops, DoAll(s, ops)) && UpdatesOnce(s, ops, {})
    ensures SameTuples(UndoAll(DoAll(s, ops), Writes(s, ops)), s)
       <==> Slack(s, ops, DoAll(s, ops)) && forall rid :: Deletes(ops, rid) ==> !(At(s, rid).Record? && At(s, rid).deleted)
  {
    hide At, Deletes, DoAll, UndoAll, Writes, EveryUndoSucceeds, Slack, Fits, InRange, UpdatesOnce;
    EveryUndoSucceedsIff(s, ops);
    if Slack(s, ops, DoAll(s, ops)) {
      AbortRestoresIff(s, ops);
    } else {
      var rid := FailureLeavesSmaller(s, ops, {});
      assert At(UndoAll(DoAll(s, ops), Writes(s, ops)), rid) != At(s, rid);
    }
  }

  /** Where tuples are updated more than once slack is not needed throughout: here the undo of the
      second update fails and that of the first one makes up for it. */
  lemma RestoredWithoutSlack(page: PageId, a: Bytes, long: Bytes, b: Bytes, other: Bytes)
    requires |a| == |b| == |other| == 16 && |long| == PAGE_SIZE - 32
    ensures var s: Store := map[page := [Record(a, false)]]; var r := Rid(page, 0);
            var ops := [DoUpdate(r, long), DoUpdate(r, b), DoInsert(page, other)];
            && Fits(s) && InRange(ops, DoAll(s, ops))
            && !Slack(s, ops, DoAll(s, ops)) && !EveryUndoSucceeds(DoAll(s, ops), Writes(s, ops))
            && SameTuples(UndoAll(DoAll(s, ops), Writes(s, ops)), s)
  {
    var r := Rid(page, 0);
    var s: Store := map[page := [Record(a, false)]];
    var u1, u2, ins := DoUpdate(r, long), DoUpdate(r, b), DoInsert(page, other);
    var ops := [u1, u2, ins];
    var s1: Store := map[page := [Record(long, false)]];
    var s2: Store := map[page := [Record(b, false)]];
    var s3: Store := map[page := [Record(b, false), Record(other, false)]];
    OneUpdate(page, a, long);
    OneUpdate(page, long, b);
    OneInsert(page, b, other);
    assert ops[1..] == [u2, ins] && [u2, ins][1..] == [ins] && [ins][1..] == [];
    hide Do, Undo, Free;
    assert DoAll(s2, [ins]) == DoAll(s3, []) == s3;
    assert DoAll(s1, [u2, ins]) == DoAll(s2, [ins]);
    assert DoAll(s, ops) == s3;
    assert Fits(s) by { FullPageFits(page, a); }
    assert HasSlack(s, u1, 2) && !HasSlack(s1, u2, 2);
    assert !Slack(s1, [u2, ins], s3);
    assert Settles(s, u1) == {r} && Settles(s1, u2) == {r};
    assert FirstSlack(s3, [], s3, {r} + {r} + Settles(s2, ins));
    assert FirstSlack(s2, [ins], s3, {r} + {r});
    assert FirstSlack(s1, [u2, ins], s3, {r});
    assert {} + {r} == {r};
    assert FirstSlack(s, ops, s3, {});
    assert InRange(ops, s3);
    EveryUndoSucceedsIff(s, ops);
    FirstSlackRestoresIff(s, ops);
  }

  lemma FullPageFits(page: PageId, a: Bytes)
    requires |a| <= PAGE_SIZE - 32
    ensures Fits(map[page := [Record(a, false)]])
  {
    var s: Store := map[page := [Record(a, false)]];
    assert Used([Record(a, false)]) == |a|;
    forall p ensures Free(PAGE_SIZE, Recs(s, p)) >= 0 {
      assert Recs(s, p) == if p == page then [Record(a, false)] else [];
    }
  }

  lemma OneUpdate(page: PageId, a: Bytes, b: Bytes)
    requires |b| <= PAGE_SIZE - 32
    ensures var s: Store := map[page := [Record(a, false)]]; var r: Store := map[page := [Record(b, false)]];
            Do(s, DoUpdate(Rid(page, 0), b)) == (r, Some(Updated(Rid(page, 0), a)))
    ensures Free(PAGE_SIZE, [Record(a, false)]) == PAGE_SIZE - 32 - |a|
  {
    assert Used([Record(a, false)]) == |a|;
    assert [Record(a, false)][0 := Record(b, false)] == [Record(b, false)];
    var s: Store := map[page := [Record(a, false)]];
    assert s[page := [Record(b, false)]] == map[page := [Record(b, false)]];
  }

  lemma OneInsert(page: PageId, a: Bytes, b: Bytes)
    requires |a| + |b| + 40 <= PAGE_SIZE
    ensures var s: Store := map[page := [Record(a, false)]]; var r: Store := map[page := [Record(a, false), Record(b, false)]];
            Do(s, DoInsert(page, b)) == (r, Some(Inserted(Rid(page, 1))))
  {
    assert Used([Record(a, false)]) == |a|;
    assert FirstVacant([Record(a, false)]) == 1 by { assert FirstVacant([Record(a, false)][1..]) == 0; }
    var two := [Record(a, false), Record(b, false)];
    assert [Record(a, false)] + [Record(b, false)] == two;
    var s: Store := map[page := [Record(a, false)]];
    assert s[page := two] == map[page := two];
  }
}
