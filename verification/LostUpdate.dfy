/** Why serializability excludes upgrades that wait: a run in which nobody is wounded, everybody is
    polite and REPEATABLE_READ, and the conflict graph has a cycle. */
module LostUpdate {
  import opened Common
  import opened Locks
  import opened Accounting
  import opened TwoPhase
  import opened Serializability

  const R := Rid(0, 0)

  /** The record's queue and the three transactions. */
  function At(q: Queue, x: Txn, y: Txn, z: Txn): State { State(map[R := q], map[1 := x, 2 := y, 3 := z]) }

  function Fresh(): Txn { Txn(RepeatableRead, Growing, {}, {}, Idle) }

  function Sharing(): Txn { Txn(RepeatableRead, Growing, {R}, {}, Idle) }

  function Done(): Txn { Txn(RepeatableRead, Shrinking, {}, {}, Idle) }

  function Upgrading(): Txn { Txn(RepeatableRead, Growing, {}, {}, Waiting(R, ForUpgrade)) }

  function Owning(): Txn { Txn(RepeatableRead, Growing, {}, {R}, Idle) }

  const S1 := Request(1, Shared, true)
  const S2 := Request(2, Shared, true)
  const U2 := Request(2, Exclusive, false)
  const X2 := Request(2, Exclusive, true)
  const X3 := Request(3, Exclusive, true)

  function EventAt(i: nat): Event {
    match i
    case 0 => Begin(1, RepeatableRead)
    case 1 => Begin(2, RepeatableRead)
    case 2 => Begin(3, RepeatableRead)
    case 3 => LockShared(1, R)
    case 4 => LockShared(2, R)
    case 5 => Read(2, R)
    case 6 => LockUpgrade(2, R)
    case 7 => Unlock(1, R)
    case 8 => LockExclusive(3, R)
    case 9 => Write(3, R)
    case 10 => Unlock(3, R)
    case 11 => Wake(2)
    case _ => Write(2, R)
  }

  function ReplyAt(i: nat): Reply {
    if i == 3 || i == 4 then Granted(Shared)
    else if i == 8 || i == 11 then Granted(Exclusive)
    else if i == 6 then Blocks
    else Returns
  }

  function StateAt(i: nat): State {
    match i
    case 0 => State(map[], map[])
    case 1 => State(map[], map[1 := Fresh()])
    case 2 => State(map[], map[1 := Fresh(), 2 := Fresh()])
    case 3 => State(map[], map[1 := Fresh(), 2 := Fresh(), 3 := Fresh()])
    case 4 => At(Queue([S1], false, 1, false), Sharing(), Fresh(), Fresh())
    case 5 => At(Queue([S1, S2], false, 2, false), Sharing(), Sharing(), Fresh())
    case 6 => At(Queue([S1, S2], false, 2, false), Sharing(), Sharing(), Fresh())
    case 7 => At(Queue([S1, U2], true, 1, false), Sharing(), Upgrading(), Fresh())
    case 8 => At(Queue([U2], true, 0, false), Done(), Upgrading(), Fresh())
    case 9 => At(Queue([U2, X3], true, 0, true), Done(), Upgrading(), Owning())
    case 10 => At(Queue([U2, X3], true, 0, true), Done(), Upgrading(), Owning())
    case 11 => At(Queue([U2], true, 0, false), Done(), Upgrading(), Done())
    case _ => At(Queue([X2], false, 0, true), Done(), Owning(), Done())
  }

  lemma FirstOfOne(a: Request, t: TxnId)
    ensures First([a], t) == if a.txn == t then 0 else 1
  {
    assert First([a][1..], t) == 0;
  }

  lemma FirstOfTwo(a: Request, b: Request, t: TxnId)
    ensures First([a, b], t) == if a.txn == t then 0 else if b.txn == t then 1 else 2
  {
    assert [a, b][1..] == [b];
    FirstOfOne(b, t);
  }

  lemma WithoutOfTwo(a: Request, b: Request)
    ensures Without([a], 0) == [] && Without([a, b], 0) == [b] && Without([a, b], 1) == [a]
  {}

  /** An enabled, polite step that wounds nobody. */
  ghost predicate GoodStep(s: State, e: Event, r: State, reply: Reply) {
    Enabled(s, e) && Step(s, e) == (r, reply) && Polite(s, e) && WoundFree(s, e)
  }

  lemma Begins(s: State, t: TxnId)
    requires t !in s.txns
    ensures GoodStep(s, Begin(t, RepeatableRead), State(s.table, s.txns[t := Fresh()]), Returns)
  {}

  lemma FirstShares(s: State)
    requires s.table == map[] && s.txns == map[1 := Fresh(), 2 := Fresh(), 3 := Fresh()]
    ensures GoodStep(s, LockShared(1, R), At(Queue([S1], false, 1, false), Sharing(), Fresh(), Fresh()), Granted(Shared))
  {
    var pending := Request(1, Shared, false);
    FirstOfOne(pending, 1);
    assert [] + [pending] == [pending] && [pending][0 := S1] == [S1] && {} + {R} == {R};
    var r := Step(s, LockShared(1, R)).0;
    assert r.table == map[R := Queue([S1], false, 1, false)];
    assert r.txns == map[1 := Sharing(), 2 := Fresh(), 3 := Fresh()];
  }

  lemma SecondShares(s: State)
    requires s == At(Queue([S1], false, 1, false), Sharing(), Fresh(), Fresh())
    ensures GoodStep(s, LockShared(2, R), At(Queue([S1, S2], false, 2, false), Sharing(), Sharing(), Fresh()), Granted(Shared))
  {
    var pending := Request(2, Shared, false);
    FirstOfTwo(S1, pending, 2);
    assert [S1] + [pending] == [S1, pending] && [S1, pending][1 := S2] == [S1, S2] && {} + {R} == {R};
    var r := Step(s, LockShared(2, R)).0;
    assert r.table == map[R := Queue([S1, S2], false, 2, false)];
    assert r.txns == map[1 := Sharing(), 2 := Sharing(), 3 := Fresh()];
  }

  lemma UpgradeWaits(s: State)
    requires s == At(Queue([S1, S2], false, 2, false), Sharing(), Sharing(), Fresh())
    ensures GoodStep(s, LockUpgrade(2, R), At(Queue([S1, U2], true, 1, false), Sharing(), Upgrading(), Fresh()), Blocks)
  {
    FirstOfTwo(S1, S2, 2);
    FirstOfTwo(S1, U2, 2);
    assert [S1, S2][1 := U2] == [S1, U2] && {R} - {R} == {};
    var d := Demote(s, 2, R);
    assert d.table[R] == Queue([S1, U2], false, 1, false);
    assert d.txns == map[1 := Sharing(), 2 := Fresh(), 3 := Fresh()];
    NoWound(d, R, 2, 0);
    var r := Step(s, LockUpgrade(2, R)).0;
    assert r.table == map[R := Queue([S1, U2], true, 1, false)];
    assert r.txns == map[1 := Sharing(), 2 := Upgrading(), 3 := Fresh()];
  }

  lemma SharerLeaves(s: State)
    requires s == At(Queue([S1, U2], true, 1, false), Sharing(), Upgrading(), Fresh())
    ensures GoodStep(s, Unlock(1, R), At(Queue([U2], true, 0, false), Done(), Upgrading(), Fresh()), Returns)
  {
    FirstOfTwo(S1, U2, 1);
    WithoutOfTwo(S1, U2);
    assert {R} - {R} == {} && {} - {R} == {};
    var r := Step(s, Unlock(1, R)).0;
    assert r.table == map[R := Queue([U2], true, 0, false)];
    assert r.txns == map[1 := Done(), 2 := Upgrading(), 3 := Fresh()];
  }

  lemma ThirdWrites(s: State)
    requires s == At(Queue([U2], true, 0, false), Done(), Upgrading(), Fresh())
    ensures GoodStep(s, LockExclusive(3, R), At(Queue([U2, X3], true, 0, true), Done(), Upgrading(), Owning()), Granted(Exclusive))
  {
    var pending := Request(3, Exclusive, false);
    FirstOfTwo(U2, pending, 3);
    assert [U2] + [pending] == [U2, pending] && [U2, pending][1 := X3] == [U2, X3] && {} + {R} == {R};
    var r := Step(s, LockExclusive(3, R)).0;
    assert r.table == map[R := Queue([U2, X3], true, 0, true)];
    assert r.txns == map[1 := Done(), 2 := Upgrading(), 3 := Owning()];
  }

  lemma ThirdLeaves(s: State)
    requires s == At(Queue([U2, X3], true, 0, true), Done(), Upgrading(), Owning())
    ensures GoodStep(s, Unlock(3, R), At(Queue([U2], true, 0, false), Done(), Upgrading(), Done()), Returns)
  {
    FirstOfTwo(U2, X3, 3);
    WithoutOfTwo(U2, X3);
    assert {R} - {R} == {} && {} - {R} == {};
    var r := Step(s, Unlock(3, R)).0;
    assert r.table == map[R := Queue([U2], true, 0, false)];
    assert r.txns == map[1 := Done(), 2 := Upgrading(), 3 := Done()];
  }

  lemma UpgradeWakes(s: State)
    requires s == At(Queue([U2], true, 0, false), Done(), Upgrading(), Done())
    ensures GoodStep(s, Wake(2), At(Queue([X2], false, 0, true), Done(), Owning(), Done()), Granted(Exclusive))
  {
    FirstOfOne(U2, 2);
    assert [U2][0 := X2] == [X2] && {} + {R} == {R};
    var r := Step(s, Wake(2)).0;
    assert r.table == map[R := Queue([X2], false, 0, true)];
    assert r.txns == map[1 := Done(), 2 := Owning(), 3 := Done()];
  }

  lemma Touches(s: State, e: Event)
    requires (e.Read? || e.Write?) && Enabled(s, e)
    ensures GoodStep(s, e, s, Returns)
  {}

  lemma EveryStepIsGood(i: nat)
    requires i < 13
    ensures GoodStep(StateAt(i), EventAt(i), StateAt(i + 1), ReplyAt(i))
  {
    hide GoodStep;
    if i == 5 || i == 9 || i == 12 {
      Touches(StateAt(i), EventAt(i));
    } else if i < 5 {
      EarlyStepIsGood(i);
    } else {
      LateStepIsGood(i);
    }
  }

  lemma EarlyStepIsGood(i: nat)
    requires i < 5
    ensures GoodStep(StateAt(i), EventAt(i), StateAt(i + 1), ReplyAt(i))
  {
    hide GoodStep;
    if i < 3 { Begins(StateAt(i), i + 1); } else if i == 3 { FirstShares(StateAt(3)); } else { SecondShares(StateAt(4)); }
  }

  lemma LateStepIsGood(i: nat)
    requires 6 <= i < 12 && i != 9
    ensures GoodStep(StateAt(i), EventAt(i), StateAt(i + 1), ReplyAt(i))
  {
    hide GoodStep;
    if i == 6 { UpgradeWaits(StateAt(6)); }
    else if i == 7 { SharerLeaves(StateAt(7)); }
    else if i == 8 { ThirdWrites(StateAt(8)); }
    else if i == 10 { ThirdLeaves(StateAt(10)); }
    else { UpgradeWakes(StateAt(11)); }
  }

  function TheRun(): Run { Run(seq(14, (i: nat) => StateAt(i)), seq(13, (i: nat) => EventAt(i)), seq(13, (i: nat) => ReplyAt(i))) }

  lemma ItIsARun()
    ensures IsRun(TheRun())
  {
    var r := TheRun();
    assert r.states[0] == StateAt(0) == State(map[], map[]);
    hide StateAt, EventAt, ReplyAt, Enabled, Step, Polite, WoundFree;
    forall i | 0 <= i < |r.events|
      ensures Enabled(r.states[i], r.events[i]) && (r.states[i + 1], r.replies[i]) == Step(r.states[i], r.events[i])
    {
      EveryStepIsGood(i);
    }
  }

  lemma ItKeepsToTheRules()
    requires IsRun(TheRun())
    ensures PoliteRun(TheRun()) && WoundFreeRun(TheRun())
  {
    var r := TheRun();
    hide StateAt, EventAt, ReplyAt, Enabled, Step, Polite, WoundFree, IsRun;
    forall i | 0 <= i < |r.events| ensures Enabled(r.states[i], r.events[i]) && Polite(r.states[i], r.events[i]) && WoundFree(r.states[i], r.events[i]) {
      EveryStepIsGood(i);
    }
  }

  lemma ItHasBothEdges()
    ensures Edge(TheRun(), 2, 3) && Edge(TheRun(), 3, 2)
  {
    var r := TheRun();
    hide StateAt, ReplyAt;
    assert r.events[5] == Read(2, R) && r.events[9] == Write(3, R) && r.events[12] == Write(2, R);
    hide EventAt, TheRun;
    assert Conflict(r.events[5], r.events[9]);
    assert Conflict(r.events[9], r.events[12]);
  }

  lemma ItIsRepeatableRead()
    ensures var r := TheRun(); forall i :: 0 <= i < |r.events| && r.events[i].Begin? ==> r.events[i].iso == RepeatableRead
  {
    hide StateAt, ReplyAt;
  }

  lemma TwoEdgesMakeAPath(r: Run, t: TxnId, u: TxnId)
    requires Edge(r, t, u) && Edge(r, u, t)
    ensures IsPath(r, [t, u, t])
  {
    hide Edge;
  }

  lemma NobodyCommits(t: TxnId)
    requires IsRun(TheRun())
    ensures NoLocksAfterCommit(TheRun(), t)
  {
    var r := TheRun();
    hide Step, Polite, WoundFree, IsRun, EventAt, ReplyAt, Enabled, StateAt;
    forall i | 0 <= i < |r.events| ensures Enabled(r.states[i], r.events[i]) && NotAfterCommit(r.states[i], r.events[i], t) {
      EveryStepIsGood(i);
      NoneCommitted(i, t);
      CallerIsKnown(r.states[i], r.events[i]);
    }
  }

  lemma CallerIsKnown(s: State, e: Event)
    requires Enabled(s, e)
    ensures IsLockCall(e) ==> e.t in s.txns
  {}

  lemma NoneCommitted(i: nat, t: TxnId)
    ensures t in StateAt(i).txns ==> StateAt(i).txns[t].state != Committed
  {}

  /** Transaction 2 reads, gives its shared lock up to wait for its upgrade, and writes only after
      transaction 3 wrote in between: a lost update. Everything else the theorem asks for holds. */
  lemma WaitingUpgradeMakesCycle()
    ensures var r := TheRun();
            && IsRun(r) && PoliteRun(r) && WoundFreeRun(r) && (forall t :: NoLocksAfterCommit(r, t))
            && (forall i :: 0 <= i < |r.events| && r.events[i].Begin? ==> r.events[i].iso == RepeatableRead)
            && IsPath(r, [2, 3, 2])
  {
    hide IsRun, PoliteRun, WoundFreeRun, IsPath, TheRun, Edge, NoLocksAfterCommit;
    ItIsARun();
    ItKeepsToTheRules();
    ItIsRepeatableRead();
    forall t ensures NoLocksAfterCommit(TheRun(), t) { NobodyCommits(t); }
    ItHasBothEdges();
    TwoEdgesMakeAPath(TheRun(), 2, 3);
  }
}
