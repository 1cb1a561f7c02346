/** The two-phase rule over whole runs, wounds included. */
module TwoPhase {
  import opened Common
  import opened Locks

  // ---------------------------------------------------------------- what holds in every run

  /** Requests belong to known transactions, and whoever sleeps has a request in the queue it sleeps
      on. So neither demand of `Enabled` is ever the reason that a call cannot be made. */
  ghost predicate WellKept(s: State) {
    && (forall rid :: rid in s.table ==> Registered(s, rid))
    && (forall t :: t in s.txns && s.txns[t].pc.Waiting? ==> HasRequest(s, t, s.txns[t].pc.rid))
  }

  lemma FirstFinds(requests: seq<Request>, t: TxnId)
    ensures First(requests, t) < |requests| <==> exists q :: q in requests && q.txn == t
  {
    if q :| q in requests && q.txn == t {
      var i :| 0 <= i < |requests| && requests[i] == q;
      assert First(requests, t) <= i;
    } else {
      assert forall i :: 0 <= i < |requests| ==> requests[i] in requests;
    }
  }

  /** A queue in which only t's requests change keeps everybody else's. */
  predicate OthersStay(a: seq<Request>, b: seq<Request>, t: TxnId) {
    && (forall q :: q in a && q.txn != t ==> q in b)
    && (forall q :: q in b ==> q in a || q.txn == t)
  }

  lemma WithoutOthersStay(a: seq<Request>, i: nat)
    requires i < |a|
    ensures OthersStay(a, Without(a, i), a[i].txn)
  {
    assert a == a[..i] + [a[i]] + a[i + 1..];
  }

  lemma UpdateOthersStay(a: seq<Request>, i: nat, r: Request)
    requires i < |a| && r.txn == a[i].txn
    ensures OthersStay(a, a[i := r], r.txn)
  {
    forall q | q in a && q.txn != r.txn ensures q in a[i := r] {
      var k :| 0 <= k < |a| && a[k] == q;
      assert a[i := r][k] == q;
    }
  }

  /** Changing t's requests in one queue, and the records of known transactions, keeps the book. */
  lemma OneQueueChanges(s: State, r: State, t: TxnId, rid: Rid)
    requires WellKept(s) && rid in s.table && t in s.txns && r.table.Keys == s.table.Keys && r.txns.Keys == s.txns.Keys
    requires forall other :: other in s.table && other != rid ==> r.table[other].requests == s.table[other].requests
    requires OthersStay(s.table[rid].requests, r.table[rid].requests, t)
    requires forall u :: u in s.txns && u != t ==> r.txns[u].pc == s.txns[u].pc
    requires r.txns[t].pc.Waiting? ==> HasRequest(r, t, r.txns[t].pc.rid)
    ensures WellKept(r)
  {
    hide First;
    forall u | u in r.txns && r.txns[u].pc.Waiting? ensures HasRequest(r, u, r.txns[u].pc.rid) {
      if u != t {
        var at := s.txns[u].pc.rid;
        FirstFinds(s.table[at].requests, u);
        FirstFinds(r.table[at].requests, u);
        assert at in s.table;
      }
    }
  }

  lemma FinishKeepsBook(s: State, t: TxnId, rid: Rid, call: Call)
    requires WellKept(s) && t in s.txns && HasRequest(s, t, rid)
    ensures WellKept(Finish(s, t, rid, call).0)
  {
    var q, r := s.table[rid], Finish(s, t, rid, call).0;
    var i := First(q.requests, t);
    WithoutOthersStay(q.requests, i);
    UpdateOthersStay(q.requests, i, q.requests[i].(granted := true));
    hide First;
    OneQueueChanges(s, r, t, rid);
  }

  lemma {:induction false} WoundKeepsPcs(s: State, rid: Rid, t: TxnId, i: nat)
    requires rid in s.table && i <= |s.table[rid].requests|
    requires forall q :: q in s.table[rid].requests ==> q.txn in s.txns
    ensures var w := Wound(s, rid, t, i);
            && (forall u :: u in s.txns ==> w.txns[u].pc == s.txns[u].pc)
            && (forall other :: other in s.table && other != rid ==> w.table[other] == s.table[other])
    decreases |s.table[rid].requests| - i
  {
    if i < |s.table[rid].requests| {
      WoundKeepsPcs(WoundOne(s, rid, t, i), rid, t, i + 1);
      hide Wound;
    }
  }

  lemma AcquireKeepsBook(s: State, t: TxnId, rid: Rid, call: Call)
    requires WellKept(s) && t in s.txns && HasRequest(s, t, rid)
    ensures WellKept(Acquire(s, t, rid, call).0)
  {
    hide First, Wound, Finish;
    assert Registered(s, rid);
    if MustWait(s.table[rid], call) {
      var w := Wound(s, rid, t, 0);
      WoundKeepsPcs(s, rid, t, 0);
      var u := if call.ForUpgrade? then w.(table := w.table[rid := w.table[rid].(upgrading := true)]) else w;
      OneQueueChanges(s, u, t, rid);
      if Ready(u, t, rid, call) {
        FinishKeepsBook(u, t, rid, call);
      } else {
        OneQueueChanges(u, u.(txns := u.txns[t := u.txns[t].(pc := Waiting(rid, call))]), t, rid);
      }
    } else {
      FinishKeepsBook(s, t, rid, call);
    }
  }

  lemma EnqueueKeepsBook(s: State, t: TxnId, rid: Rid, mode: Mode)
    requires WellKept(s) && t in s.txns
    ensures WellKept(Enqueue(s, t, rid, mode)) && HasRequest(Enqueue(s, t, rid, mode), t, rid)
  {
    var q := if rid in s.table then s.table[rid] else EMPTY_QUEUE;
    var s1 := s.(table := s.table[rid := q]);
    var r := Enqueue(s, t, rid, mode);
    FirstFinds(r.table[rid].requests, t);
    hide First;
    assert Request(t, mode, false) in r.table[rid].requests;
    assert WellKept(s1);
    OneQueueChanges(s1, r, t, rid);
  }

  lemma DemoteKeepsBook(s: State, t: TxnId, rid: Rid)
    requires WellKept(s) && t in s.txns && s.txns[t].pc.Idle? && HasRequest(s, t, rid)
    ensures WellKept(Demote(s, t, rid))
  {
    var q := s.table[rid];
    var i := First(q.requests, t);
    UpdateOthersStay(q.requests, i, q.requests[i].(mode := Exclusive, granted := false));
    hide First;
    OneQueueChanges(s, Demote(s, t, rid), t, rid);
  }

  lemma UnlockKeepsBook(s: State, t: TxnId, rid: Rid)
    requires WellKept(s) && Enabled(s, Unlock(t, rid))
    ensures WellKept(DoUnlock(s, t, rid))
  {
    WithoutOthersStay(s.table[rid].requests, First(s.table[rid].requests, t));
    hide First;
    OneQueueChanges(s, DoUnlock(s, t, rid), t, rid);
  }

  lemma StepKeepsBook(s: State, e: Event)
    requires WellKept(s) && Enabled(s, e)
    ensures WellKept(Step(s, e).0)
  {
    hide First, Acquire, Finish, DoUnlock, Demote, Enqueue, HasRequest;
    match e
    case LockShared(t, rid) => EnqueueKeepsBook(s, t, rid, Shared); LockKeepsBook(s, e, ForShared, Shared);
    case LockExclusive(t, rid) => EnqueueKeepsBook(s, t, rid, Exclusive); LockKeepsBook(s, e, ForExclusive, Exclusive);
    case LockUpgrade(t, rid) =>
      DemoteKeepsBook(s, t, rid);
      AcquireKeepsBook(Demote(s, t, rid), t, rid, ForUpgrade);
      StateKeepsBook(s, t, Aborted);
    case Wake(t) => FinishKeepsBook(s, t, s.txns[t].pc.rid, s.txns[t].pc.call);
    case Unlock(t, rid) => UnlockKeepsBook(s, t, rid);
    case Begin(t, iso) => BeginKeepsBook(s, t, iso);
    case SetCommitted(t) => StateKeepsBook(s, t, Committed);
    case SetAborted(t) => StateKeepsBook(s, t, Aborted);
    case _ =>
  }

  lemma LockKeepsBook(s: State, e: Event, call: Call, mode: Mode)
    requires WellKept(s) && Enabled(s, e) && (e.LockShared? || e.LockExclusive?)
    requires HasRequest(Enqueue(s, e.t, e.rid, mode), e.t, e.rid)
    ensures WellKept(DoLock(s, e.t, e.rid, call, mode).0) && WellKept(SetState(s, e.t, Aborted))
  {
    hide First, Acquire, HasRequest;
    EnqueueKeepsBook(s, e.t, e.rid, mode);
    StateKeepsBook(s, e.t, Aborted);
    AcquireKeepsBook(Enqueue(s, e.t, e.rid, mode), e.t, e.rid, call);
  }

  lemma StateKeepsBook(s: State, t: TxnId, state: TxnState)
    requires WellKept(s) && t in s.txns
    ensures WellKept(SetState(s, t, state))
  {
    hide First;
  }

  lemma BeginKeepsBook(s: State, t: TxnId, iso: Isolation)
    requires WellKept(s) && t !in s.txns
    ensures WellKept(s.(txns := s.txns[t := Txn(iso, Growing, {}, {}, Idle)]))
  {
    hide First;
  }

  /** In every run, at every moment. */
  lemma {:induction false} RunIsWellKept(r: Run, n: nat)
    requires IsRun(r) && n <= |r.events|
    ensures WellKept(r.states[n])
  {
    hide Step, Enabled, WellKept;
    if n > 0 {
      RunIsWellKept(r, n - 1);
      StepKeepsBook(r.states[n - 1], r.events[n - 1]);
    } else {
      EmptyIsWellKept();
    }
  }

  lemma EmptyIsWellKept()
    ensures WellKept(State(map[], map[]))
  {}

  /** What a step demands of its caller and of the waking rule, and nothing about the books. */
  predicate Demanded(s: State, e: Event) {
    match e
    case Begin(t, _) => t !in s.txns
    case LockShared(t, _) => t in s.txns && s.txns[t].pc.Idle?
    case LockExclusive(t, _) => t in s.txns && s.txns[t].pc.Idle?
    case LockUpgrade(t, rid) => t in s.txns && s.txns[t].pc.Idle? && HasRequest(s, t, rid)
    case Wake(t) =>
      && t in s.txns && s.txns[t].pc.Waiting?
      && (s.txns[t].pc.rid in s.table ==> Ready(s, t, s.txns[t].pc.rid, s.txns[t].pc.call))
    case _ => Enabled(s, e)
  }

  /** In a run the books never stand in the way of a step. */
  lemma EnabledIsDemanded(r: Run, n: nat, e: Event)
    requires IsRun(r) && n <= |r.events|
    ensures Enabled(r.states[n], e) <==> Demanded(r.states[n], e)
  {
    RunIsWellKept(r, n);
    hide First, Step, IsRun;
    var s := r.states[n];
    if IsLockCall(e) { assert e.rid in s.table ==> Registered(s, e.rid); }
  }

  // ---------------------------------------------------------------- what one step does to states

  /** A transaction asleep for a shared lock is not READ_UNCOMMITTED. */
  ghost predicate SharersMayShare(s: State) {
    forall t :: t in s.txns && s.txns[t].pc.Waiting? && s.txns[t].pc.call.ForShared? ==> !s.txns[t].iso.ReadUncommitted?
  }

  /** A transaction that never locks after its commit was growing when it fell asleep; only a wound
      changes that. */
  predicate SleepsGrowing(s: State, t: TxnId) {
    t in s.txns && s.txns[t].pc.Waiting? ==> s.txns[t].state in {Growing, Aborted}
  }

  predicate NotAfterCommit(s: State, e: Event, t: TxnId)
    requires Enabled(s, e)
  {
    IsLockCall(e) && e.t == t ==> s.txns[t].state != Committed
  }

  /** Acquire touches other transactions only by aborting them. */
  lemma AcquireEffect(s: State, t: TxnId, rid: Rid, call: Call)
    requires t in s.txns && HasRequest(s, t, rid) && Registered(s, rid)
    ensures var (r, reply) := Acquire(s, t, rid, call);
            && r.txns.Keys == s.txns.Keys
            && (forall u :: u in s.txns && u != t ==> r.txns[u] == s.txns[u] || r.txns[u] == s.txns[u].(state := Aborted))
            && r.txns[t].state == s.txns[t].state && r.txns[t].iso == s.txns[t].iso
            && (reply.Granted? ==> s.txns[t].state != Aborted && r.txns[t].pc == Idle)
            && (reply.Blocks? ==> r.txns[t].pc == Waiting(rid, call) && s.txns[t].state != Aborted)
            && (reply.Throws? ==> r.txns[t].pc == Idle)
            && (reply.Throws? ==> s.txns[t].state == Aborted)
            && !reply.Returns? && (reply == Granted(Shared) ==> call.ForShared?)
  {
  }

  /** What one step may do to any transaction's state. */
  ghost predicate Effect(s: State, e: Event, r: State, reply: Reply)
    requires Enabled(s, e)
  {
    && SharersMayShare(r)
    && (reply.Granted? ==> e.t in s.txns)
    && (reply == Granted(Shared) ==> e.t in s.txns && !s.txns[e.t].iso.ReadUncommitted?)
    && (forall t :: t in s.txns ==> t in r.txns && r.txns[t].iso == s.txns[t].iso)
    && (forall t :: t in s.txns && s.txns[t].state != Growing ==> r.txns[t].state != Growing)
    && (forall t :: SleepsGrowing(s, t) && NotAfterCommit(s, e, t) ==> SleepsGrowing(r, t))
    && (forall t :: SleepsGrowing(s, t) && NotAfterCommit(s, e, t) && t == e.t && reply.Granted? ==> s.txns[t].state == Growing)
  }

  lemma AcquireHasEffect(s: State, m: State, e: Event, rid: Rid, call: Call)
    requires Enabled(s, e) && SharersMayShare(s) && IsLockCall(e)
    requires s.txns[e.t].state != Shrinking && (call.ForShared? ==> !s.txns[e.t].iso.ReadUncommitted?)
    requires m.txns.Keys == s.txns.Keys && HasRequest(m, e.t, rid) && Registered(m, rid)
    requires forall u :: u in s.txns && u != e.t ==> m.txns[u] == s.txns[u]
    requires m.txns[e.t].state == s.txns[e.t].state && m.txns[e.t].iso == s.txns[e.t].iso
    ensures var (r, reply) := Acquire(m, e.t, rid, call); Effect(s, e, r, reply)
  {
    hide First, Wound, Acquire;
    AcquireEffect(m, e.t, rid, call);
  }

  lemma LockCallHasEffect(s: State, e: Event)
    requires Enabled(s, e) && SharersMayShare(s) && IsLockCall(e)
    ensures Effect(s, e, Step(s, e).0, Step(s, e).1)
  {
    hide First, Wound, Acquire, Effect;
    var t, rid := e.t, e.rid;
    if s.txns[t].state == Shrinking || (e.LockShared? && s.txns[t].iso.ReadUncommitted?)
       || (e.LockUpgrade? && s.table[rid].upgrading) {
      QuietHasEffect(s, e, SetState(s, t, Aborted), Throws);
    } else if e.LockUpgrade? {
      AcquireHasEffect(s, Demote(s, t, rid), e, rid, ForUpgrade);
    } else {
      var mode := if e.LockShared? then Shared else Exclusive;
      FirstInAppend(if rid in s.table then s.table[rid].requests else [], t, mode);
      AcquireHasEffect(s, Enqueue(s, t, rid, mode), e, rid, if e.LockShared? then ForShared else ForExclusive);
    }
  }

  lemma QuietHasEffect(s: State, e: Event, r: State, reply: Reply)
    requires Enabled(s, e) && SharersMayShare(s) && !reply.Granted?
    requires e.t in s.txns && s.txns[e.t].pc.Idle? && r.txns.Keys == s.txns.Keys
    requires forall u :: u in s.txns && u != e.t ==> r.txns[u] == s.txns[u]
    requires r.txns[e.t].iso == s.txns[e.t].iso && r.txns[e.t].pc == Idle
    requires s.txns[e.t].state != Growing ==> r.txns[e.t].state != Growing
    ensures Effect(s, e, r, reply)
  {
    hide Enabled;
  }

  lemma StepHasEffect(s: State, e: Event)
    requires Enabled(s, e) && SharersMayShare(s)
    ensures Effect(s, e, Step(s, e).0, Step(s, e).1)
  {
    hide First;
    if IsLockCall(e) {
      LockCallHasEffect(s, e);
    } else if !e.Begin? && !e.Wake? {
      hide Effect;
      QuietHasEffect(s, e, Step(s, e).0, Returns);
    }
  }

  // ---------------------------------------------------------------- along a run

  /** Step n of a run, with what is known before and after it. */
  lemma RunStep(r: Run, n: nat)
    requires IsRun(r) && n < |r.events|
    ensures Enabled(r.states[n], r.events[n])
    ensures Effect(r.states[n], r.events[n], r.states[n + 1], r.replies[n])
  {
    hide Step, Enabled, Effect, SharersMayShare;
    RunSharersMayShare(r, n);
    StepHasEffect(r.states[n], r.events[n]);
  }

  lemma {:induction false} RunSharersMayShare(r: Run, n: nat)
    requires IsRun(r) && n <= |r.events|
    ensures SharersMayShare(r.states[n])
  {
    if n > 0 {
      hide Step, Enabled;
      RunSharersMayShare(r, n - 1);
      StepHasEffect(r.states[n - 1], r.events[n - 1]);
    }
  }

  /** The transaction asks for no lock after it committed. */
  ghost predicate NoLocksAfterCommit(r: Run, t: TxnId)
    requires IsRun(r)
  {
    forall i :: 0 <= i < |r.events| ==> NotAfterCommit(r.states[i], r.events[i], t)
  }

  lemma {:induction false} RunSleepsGrowing(r: Run, t: TxnId, n: nat)
    requires IsRun(r) && NoLocksAfterCommit(r, t) && n <= |r.events|
    ensures SleepsGrowing(r.states[n], t)
  {
    hide Step, Enabled;
    if n > 0 {
      RunSleepsGrowing(r, t, n - 1);
      RunStep(r, n - 1);
      assert NotAfterCommit(r.states[n - 1], r.events[n - 1], t);
    }
  }

  /** A granted transaction was growing. */
  lemma GrantedWhileGrowing(r: Run, n: nat)
    requires IsRun(r) && n < |r.events| && NoLocksAfterCommit(r, r.events[n].t) && r.replies[n].Granted?
    ensures r.events[n].t in r.states[n].txns && r.states[n].txns[r.events[n].t].state == Growing
  {
    hide Step, Enabled;
    RunStep(r, n);
    RunSleepsGrowing(r, r.events[n].t, n);
    assert NotAfterCommit(r.states[n], r.events[n], r.events[n].t);
  }

  /** Once not growing, never growing again: in every run. */
  lemma {:induction false} NeverGrowsAgain(r: Run, t: TxnId, i: nat, j: nat)
    requires IsRun(r) && i <= j <= |r.events|
    requires t in r.states[i].txns && r.states[i].txns[t].state != Growing
    ensures t in r.states[j].txns && r.states[j].txns[t].state != Growing
    decreases j - i
  {
    hide Step, Enabled, IsRun;
    if i < j {
      NeverGrowsAgain(r, t, i, j - 1);
      RunStep(r, j - 1);
    }
  }

  /** The lock mode an unlock gives back. */
  function UnlockedMode(s: State, t: TxnId, rid: Rid): Mode
    requires HasRequest(s, t, rid)
  {
    s.table[rid].requests[First(s.table[rid].requests, t)].mode
  }

  lemma UnlockEndsGrowth(s: State, t: TxnId, rid: Rid)
    requires Enabled(s, Unlock(t, rid)) && !Exempt(UnlockedMode(s, t, rid), s.txns[t].iso)
    ensures t in Step(s, Unlock(t, rid)).0.txns && Step(s, Unlock(t, rid)).0.txns[t].state != Growing
  {
    hide First;
  }

  /** The two-phase rule: after any unlock of its own that is not exempt, a transaction that asks for
      nothing after its commit is never granted a lock again, whatever it asks for, whoever wounds
      whom, and whatever the other transactions do. */
  lemma NoGrantAfterUnlock(r: Run, i: nat, j: nat)
    requires IsRun(r) && i < j < |r.events|
    requires r.events[i].Unlock? && r.events[j].t == r.events[i].t && NoLocksAfterCommit(r, r.events[i].t)
    requires !Exempt(UnlockedMode(r.states[i], r.events[i].t, r.events[i].rid), r.states[i].txns[r.events[i].t].iso)
    ensures !r.replies[j].Granted?
  {
    hide First, Step, Enabled, UnlockedMode, NoLocksAfterCommit;
    RunStep(r, i);
    assert r.events[i] == Unlock(r.events[i].t, r.events[i].rid);
    UnlockEndsGrowth(r.states[i], r.events[i].t, r.events[i].rid);
    NeverGrowsAgain(r, r.events[i].t, i + 1, j);
    if r.replies[j].Granted? { GrantedWhileGrowing(r, j); }
  }

  /** READ_UNCOMMITTED transactions are never granted a shared lock, in any run. */
  lemma ReadUncommittedNeverShares(r: Run, j: nat)
    requires IsRun(r) && j < |r.events| && r.replies[j] == Granted(Shared)
    ensures r.events[j].t in r.states[j].txns && !r.states[j].txns[r.events[j].t].iso.ReadUncommitted?
  {
    hide First, Step;
    RunStep(r, j);
  }
}
