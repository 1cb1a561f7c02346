/** A transaction's lock sets in every run of polite callers, wounds included: each lock it records
    has a request in the queue of that record, so that the release of all its locks can run. */
module LockSets {
  import opened Common
  import opened Locks
  import opened Accounting
  import opened TwoPhase

  predicate Listed(s: State, t: TxnId, rid: Rid)
    requires t in s.txns
  {
    rid in s.txns[t].shared || rid in s.txns[t].exclusive ==>
      HasRequest(s, t, rid) && !Asleep(s.txns[t], rid) && !(rid in s.txns[t].shared && rid in s.txns[t].exclusive)
  }

  ghost predicate LocksListed(s: State) { forall t, rid :: t in s.txns ==> Listed(s, t, rid) }

  /** `x` differs from `y` at most in what it says about rid. */
  ghost predicate SameLocksElsewhere(x: Txn, y: Txn, rid: Rid) {
    forall other :: other != rid ==>
      && (other in x.shared <==> other in y.shared) && (other in x.exclusive <==> other in y.exclusive)
      && (Asleep(x, other) ==> Asleep(y, other))
  }

  lemma ListedChanges(s: State, r: State, t: TxnId, rid: Rid)
    requires LocksListed(s) && rid in s.table && t in s.txns && r.table.Keys == s.table.Keys && r.txns.Keys == s.txns.Keys
    requires forall other :: other in s.table && other != rid ==> r.table[other].requests == s.table[other].requests
    requires OthersStay(s.table[rid].requests, r.table[rid].requests, t)
    requires forall u :: u in s.txns && u != t ==>
      r.txns[u].pc == s.txns[u].pc && r.txns[u].shared == s.txns[u].shared && r.txns[u].exclusive == s.txns[u].exclusive
    requires SameLocksElsewhere(r.txns[t], s.txns[t], rid) && Listed(r, t, rid)
    ensures LocksListed(r)
  {
    hide First, OthersStay;
    forall u, at | u in r.txns ensures Listed(r, u, at) {
      assert Listed(s, u, at);
      if u != t && at == rid && HasRequest(s, u, rid) {
        OthersKeepRequests(s.table[rid].requests, r.table[rid].requests, t, u);
      }
    }
  }

  lemma OthersKeepRequests(a: seq<Request>, b: seq<Request>, t: TxnId, u: TxnId)
    requires OthersStay(a, b, t) && u != t && First(a, u) < |a|
    ensures First(b, u) < |b|
  {
    FirstFinds(a, u);
    FirstFinds(b, u);
    hide First;
  }

  lemma FinishKeepsListed(s: State, t: TxnId, rid: Rid, call: Call)
    requires LocksListed(s) && t in s.txns && HasRequest(s, t, rid) && rid !in s.txns[t].shared && rid !in s.txns[t].exclusive
    ensures LocksListed(Finish(s, t, rid, call).0)
  {
    hide First, OthersStay, LocksListed;
    var q, r := s.table[rid], Finish(s, t, rid, call).0;
    var i := First(q.requests, t);
    if s.txns[t].state == Aborted {
      WithoutOthersStay(q.requests, i);
      ListedChanges(s, r, t, rid);
    } else {
      UpdateOthersStay(q.requests, i, q.requests[i].(granted := true));
      FirstKept(q.requests, q.requests[i := q.requests[i].(granted := true)], t);
      ListedChanges(s, r, t, rid);
    }
  }

  lemma {:induction false} WoundKeepsLocks(s: State, rid: Rid, t: TxnId, i: nat)
    requires rid in s.table && i <= |s.table[rid].requests|
    requires forall q :: q in s.table[rid].requests ==> q.txn in s.txns
    ensures forall u :: u in s.txns ==>
      var x := Wound(s, rid, t, i).txns[u]; x == s.txns[u].(state := x.state)
    ensures forall other :: other in s.table ==> Wound(s, rid, t, i).table[other].requests == s.table[other].requests
    decreases |s.table[rid].requests| - i
  {
    if i < |s.table[rid].requests| {
      WoundKeepsLocks(WoundOne(s, rid, t, i), rid, t, i + 1);
      hide Wound;
    }
  }

  lemma SameListed(s: State, r: State)
    requires LocksListed(s) && r.table.Keys == s.table.Keys && r.txns.Keys == s.txns.Keys
    requires forall rid :: rid in s.table ==> r.table[rid].requests == s.table[rid].requests
    requires forall t :: t in s.txns ==> r.txns[t] == s.txns[t].(state := r.txns[t].state)
    ensures LocksListed(r)
  {
    hide First;
    forall t, rid | t in r.txns ensures Listed(r, t, rid) { assert Listed(s, t, rid); }
  }

  lemma AcquireKeepsListed(s: State, t: TxnId, rid: Rid, call: Call)
    requires LocksListed(s) && t in s.txns && HasRequest(s, t, rid) && Registered(s, rid)
    requires rid !in s.txns[t].shared && rid !in s.txns[t].exclusive
    ensures LocksListed(Acquire(s, t, rid, call).0)
  {
    hide First, Wound, Finish, LocksListed;
    if MustWait(s.table[rid], call) {
      var w := Wound(s, rid, t, 0);
      WoundKeepsLocks(s, rid, t, 0);
      var u := if call.ForUpgrade? then w.(table := w.table[rid := w.table[rid].(upgrading := true)]) else w;
      SameListed(s, u);
      if Ready(u, t, rid, call) {
        FinishKeepsListed(u, t, rid, call);
      } else {
        ListedChanges(u, u.(txns := u.txns[t := u.txns[t].(pc := Waiting(rid, call))]), t, rid);
      }
    } else {
      FinishKeepsListed(s, t, rid, call);
    }
  }

  lemma EnqueueKeepsListed(s: State, t: TxnId, rid: Rid, mode: Mode)
    requires LocksListed(s) && t in s.txns && rid !in s.txns[t].shared && rid !in s.txns[t].exclusive
    ensures LocksListed(Enqueue(s, t, rid, mode))
  {
    var q := if rid in s.table then s.table[rid] else EMPTY_QUEUE;
    var s1, r := s.(table := s.table[rid := q]), Enqueue(s, t, rid, mode);
    hide First;
    forall u, at | u in s1.txns ensures Listed(s1, u, at) { assert Listed(s, u, at); }
    ListedChanges(s1, r, t, rid);
  }

  lemma DemoteKeepsListed(s: State, t: TxnId, rid: Rid)
    requires LocksListed(s) && t in s.txns && HasRequest(s, t, rid) && rid in s.txns[t].shared
    ensures LocksListed(Demote(s, t, rid)) && rid !in Demote(s, t, rid).txns[t].exclusive
  {
    var q := s.table[rid];
    var i := First(q.requests, t);
    UpdateOthersStay(q.requests, i, q.requests[i].(mode := Exclusive, granted := false));
    hide First, OthersStay;
    assert Listed(s, t, rid);
    ListedChanges(s, Demote(s, t, rid), t, rid);
  }

  lemma UnlockKeepsListed(s: State, t: TxnId, rid: Rid)
    requires LocksListed(s) && t in s.txns && HasRequest(s, t, rid)
    ensures LocksListed(DoUnlock(s, t, rid))
  {
    WithoutOthersStay(s.table[rid].requests, First(s.table[rid].requests, t));
    hide First, OthersStay;
    ListedChanges(s, DoUnlock(s, t, rid), t, rid);
  }

  lemma StateKeepsListed(s: State, t: TxnId, state: TxnState)
    requires LocksListed(s) && t in s.txns
    ensures LocksListed(SetState(s, t, state))
  {
    hide LocksListed;
    SameListed(s, SetState(s, t, state));
  }

  lemma StepKeepsListed(s: State, e: Event)
    requires WellKept(s) && LocksListed(s) && Enabled(s, e) && Polite(s, e)
    ensures LocksListed(Step(s, e).0)
  {
    hide First, Acquire, Finish, DoUnlock, Demote, Enqueue, LocksListed, WellKept;
    match e
    case LockUpgrade(t, rid) =>
      StateKeepsListed(s, t, Aborted);
      DemoteKeepsListed(s, t, rid);
      UpgradeKeepsListed(s, t, rid);
    case LockShared(t, rid) => LockKeepsListed(s, e, ForShared, Shared);
    case LockExclusive(t, rid) => LockKeepsListed(s, e, ForExclusive, Exclusive);
    case Wake(t) => SleeperHoldsNothing(s, t); FinishKeepsListed(s, t, s.txns[t].pc.rid, s.txns[t].pc.call);
    case Unlock(t, rid) => UnlockKeepsListed(s, t, rid);
    case Begin(t, iso) => BeginKeepsListed(s, t, iso);
    case SetCommitted(t) => StateKeepsListed(s, t, Committed);
    case SetAborted(t) => StateKeepsListed(s, t, Aborted);
    case _ =>
  }

  lemma UpgradeKeepsListed(s: State, t: TxnId, rid: Rid)
    requires Enabled(s, LockUpgrade(t, rid)) && LocksListed(Demote(s, t, rid)) && rid !in Demote(s, t, rid).txns[t].exclusive
    ensures LocksListed(Acquire(Demote(s, t, rid), t, rid, ForUpgrade).0)
  {
    hide First, Acquire, LocksListed;
    AcquireKeepsListed(Demote(s, t, rid), t, rid, ForUpgrade);
  }

  lemma LockKeepsListed(s: State, e: Event, call: Call, mode: Mode)
    requires LocksListed(s) && Enabled(s, e) && (e.LockShared? || e.LockExclusive?) && Polite(s, e)
    ensures LocksListed(DoLock(s, e.t, e.rid, call, mode).0) && LocksListed(SetState(s, e.t, Aborted))
  {
    hide First, Acquire, LocksListed;
    FirstInAppend(if e.rid in s.table then s.table[e.rid].requests else [], e.t, mode);
    StateKeepsListed(s, e.t, Aborted);
    EnqueueKeepsListed(s, e.t, e.rid, mode);
    AcquireKeepsListed(Enqueue(s, e.t, e.rid, mode), e.t, e.rid, call);
  }

  lemma SleeperHoldsNothing(s: State, t: TxnId)
    requires LocksListed(s) && t in s.txns && s.txns[t].pc.Waiting?
    ensures s.txns[t].pc.rid !in s.txns[t].shared && s.txns[t].pc.rid !in s.txns[t].exclusive
  {
    assert Listed(s, t, s.txns[t].pc.rid);
  }

  lemma BeginKeepsListed(s: State, t: TxnId, iso: Isolation)
    requires LocksListed(s) && t !in s.txns
    ensures LocksListed(s.(txns := s.txns[t := Txn(iso, Growing, {}, {}, Idle)]))
  {
    hide First;
    var r := s.(txns := s.txns[t := Txn(iso, Growing, {}, {}, Idle)]);
    forall u, rid | u in r.txns ensures Listed(r, u, rid) { if u != t { assert Listed(s, u, rid); } }
  }

  /** In every run of polite callers, wounds included, at every moment. */
  lemma {:induction false} RunLocksListed(r: Run, n: nat)
    requires IsRun(r) && PoliteRun(r) && n <= |r.events|
    ensures LocksListed(r.states[n])
  {
    hide Step, Enabled, WellKept, LocksListed, Polite;
    if n > 0 {
      RunLocksListed(r, n - 1);
      RunIsWellKept(r, n - 1);
      assert Polite(r.states[n - 1], r.events[n - 1]);
      StepKeepsListed(r.states[n - 1], r.events[n - 1]);
    } else {
      EmptyLocksListed();
    }
  }

  lemma EmptyLocksListed()
    ensures LocksListed(State(map[], map[]))
  {}
}
