/** Lock-table accounting: in every run without wounds whose callers keep to the lock protocol,
    counters, requests and the transactions' lock sets tell the same story. */
module Accounting {
  import opened Common
  import opened Locks

  /** The number of granted requests of a mode. */
  function Count(requests: seq<Request>, mode: Mode): nat {
    if requests == [] then 0
    else (if requests[0].granted && requests[0].mode == mode then 1 else 0) + Count(requests[1..], mode)
  }

  function Entry(requests: seq<Request>, t: TxnId): Option<Request> {
    var i := First(requests, t);
    if i == |requests| then None else Some(requests[i])
  }

  predicate OnePerTxn(requests: seq<Request>) {
    forall i, j :: 0 <= i < j < |requests| ==> requests[i].txn != requests[j].txn
  }

  /** `sharing_count_` counts the granted shared requests, `is_writing_` says that one exclusive
      request is granted, and the two never coexist. */
  predicate Counters(q: Queue) {
    && q.sharing == Count(q.requests, Shared)
    && Count(q.requests, Exclusive) <= 1 && (q.writing <==> Count(q.requests, Exclusive) == 1)
    && !(q.writing && q.sharing > 0)
  }

  function ModeOf(call: Call): Mode { if call.ForShared? then Shared else Exclusive }

  predicate Asleep(x: Txn, rid: Rid) { x.pc.Waiting? && x.pc.rid == rid }

  /** A transaction's request in a queue and its own record of the lock agree. */
  predicate Agrees(entry: Option<Request>, rid: Rid, x: Txn) {
    match entry
    case None => rid !in x.shared && rid !in x.exclusive && !Asleep(x, rid)
    case Some(r) =>
      if r.granted then
        (rid in x.shared <==> r.mode.Shared?) && (rid in x.exclusive <==> r.mode.Exclusive?) && !Asleep(x, rid)
      else
        rid !in x.shared && rid !in x.exclusive && Asleep(x, rid) && ModeOf(x.pc.call) == r.mode
  }

  ghost predicate QueueOk(q: Queue, rid: Rid, txns: map<TxnId, Txn>) {
    && OnePerTxn(q.requests) && Counters(q)
    && (forall r :: r in q.requests ==> r.txn in txns)
    && (forall t :: t in txns ==> Agrees(Entry(q.requests, t), rid, txns[t]))
  }

  ghost predicate Accounted(s: State) {
    && (forall rid :: rid in s.table ==> QueueOk(s.table[rid], rid, s.txns))
    && (forall t, rid :: t in s.txns && rid !in s.table ==> Agrees(None, rid, s.txns[t]))
  }

  // ---------------------------------------------------------------- one request changes

  lemma {:induction false} CountConcat(a: seq<Request>, b: seq<Request>, mode: Mode)
    ensures Count(a + b, mode) == Count(a, mode) + Count(b, mode)
  {
    if a == [] {
      assert a + b == b;
    } else {
      assert (a + b)[1..] == a[1..] + b;
      CountConcat(a[1..], b, mode);
    }
  }

  function Weight(entry: Option<Request>, mode: Mode): nat {
    if entry.Some? && entry.value.granted && entry.value.mode == mode then 1 else 0
  }

  /** `b` is `a` with t's request replaced (None: absent). */
  ghost predicate Replaced(a: seq<Request>, b: seq<Request>, t: TxnId, entry: Option<Request>) {
    && OnePerTxn(b) && Entry(b, t) == entry
    && (forall r :: r in b ==> r in a || entry == Some(r))
    && (forall u :: u != t ==> Entry(b, u) == Entry(a, u))
    && (forall mode :: Count(b, mode) == Count(a, mode) - Weight(Entry(a, t), mode) + Weight(entry, mode))
  }

  lemma {:induction false} FirstIs(requests: seq<Request>, t: TxnId, i: nat)
    requires i < |requests| && requests[i].txn == t && forall j :: 0 <= j < i ==> requests[j].txn != t
    ensures First(requests, t) == i
  {
  }

  lemma {:induction false} EntryIs(requests: seq<Request>, i: nat)
    requires OnePerTxn(requests) && i < |requests|
    ensures First(requests, requests[i].txn) == i
  {
    FirstIs(requests, requests[i].txn, i);
  }

  lemma SameEntry(a: seq<Request>, b: seq<Request>, u: TxnId)
    requires OnePerTxn(a) && OnePerTxn(b)
    requires forall r: Request :: r.txn == u ==> (r in a <==> r in b)
    ensures Entry(a, u) == Entry(b, u)
  {
    var i, j := First(a, u), First(b, u);
    if i < |a| {
      assert a[i] in b;
      var k :| 0 <= k < |b| && b[k] == a[i];
      EntryIs(b, k);
    }
    if j < |b| {
      assert b[j] in a;
      var k :| 0 <= k < |a| && a[k] == b[j];
      EntryIs(a, k);
    }
  }

  lemma Appended(a: seq<Request>, t: TxnId, mode: Mode, granted: bool)
    requires OnePerTxn(a) && Entry(a, t) == None
    ensures Replaced(a, a + [Request(t, mode, granted)], t, Some(Request(t, mode, granted)))
  {
    var b := a + [Request(t, mode, granted)];
    EntryIs(b, |a|);
    forall u | u != t ensures Entry(b, u) == Entry(a, u) { SameEntry(a, b, u); }
    forall m ensures Count(b, m) == Count(a, m) + Weight(Some(Request(t, mode, granted)), m) {
      CountConcat(a, [Request(t, mode, granted)], m);
    }
  }

  lemma CountAround(a: seq<Request>, i: nat, mode: Mode)
    requires i < |a|
    ensures Count(a, mode) == Count(a[..i], mode) + Weight(Some(a[i]), mode) + Count(a[i + 1..], mode)
  {
    CountConcat(a[..i], [a[i]] + a[i + 1..], mode);
    assert a == a[..i] + ([a[i]] + a[i + 1..]);
  }

  lemma Updated(a: seq<Request>, t: TxnId, r: Request)
    requires OnePerTxn(a) && Entry(a, t).Some? && r.txn == t
    ensures Replaced(a, a[First(a, t) := r], t, Some(r))
  {
    var i := First(a, t);
    var b := a[i := r];
    EntryIs(b, i);
    forall u | u != t ensures Entry(b, u) == Entry(a, u) {
      forall q: Request | q.txn == u ensures q in a <==> q in b {
        if q in a { var k :| 0 <= k < |a| && a[k] == q; assert b[k] == q; }
      }
      SameEntry(a, b, u);
    }
    forall m ensures Count(b, m) == Count(a, m) - Weight(Entry(a, t), m) + Weight(Some(r), m) {
      CountAround(a, i, m);
      CountAround(b, i, m);
      assert b[..i] == a[..i] && b[i + 1..] == a[i + 1..];
    }
  }

  lemma Removed(a: seq<Request>, t: TxnId)
    requires OnePerTxn(a) && Entry(a, t).Some?
    ensures Replaced(a, Without(a, First(a, t)), t, None)
  {
    var i := First(a, t);
    var b := Without(a, i);
    forall j | 0 <= j < |b| ensures b[j].txn != t {
      assert b[j] == if j < i then a[j] else a[j + 1];
    }
    forall u | u != t ensures Entry(b, u) == Entry(a, u) {
      forall r: Request | r.txn == u ensures r in a <==> r in b {
        if r in a {
          var k :| 0 <= k < |a| && a[k] == r;
          assert b[if k < i then k else k - 1] == r;
        }
      }
      SameEntry(a, b, u);
    }
    forall m ensures Count(b, m) == Count(a, m) - Weight(Entry(a, t), m) {
      CountAround(a, i, m);
      CountConcat(a[..i], a[i + 1..], m);
    }
  }

  // ---------------------------------------------------------------- one transaction changes at one queue

  /** Everything agrees, except that nothing is asked of t at `rid`. */
  ghost predicate AccountedBut(s: State, t: TxnId, rid: Rid) {
    && t in s.txns && rid in s.table
    && (forall other :: other in s.table && other != rid ==> QueueOk(s.table[other], other, s.txns))
    && (forall u, other :: u in s.txns && other !in s.table ==> Agrees(None, other, s.txns[u]))
    && OnePerTxn(s.table[rid].requests) && Counters(s.table[rid])
    && (forall r :: r in s.table[rid].requests ==> r.txn in s.txns)
    && (forall u :: u in s.txns && u != t ==> Agrees(Entry(s.table[rid].requests, u), rid, s.txns[u]))
  }

  /** `x` and `y` are indistinguishable to every queue but rid's. */
  ghost predicate SameElsewhere(x: Txn, y: Txn, rid: Rid) {
    forall other :: other != rid ==>
      && (other in x.shared <==> other in y.shared) && (other in x.exclusive <==> other in y.exclusive)
      && (Asleep(x, other) <==> Asleep(y, other)) && (Asleep(x, other) ==> x.pc == y.pc)
  }

  lemma Requeue(s: State, t: TxnId, rid: Rid, q: Queue, x: Txn, entry: Option<Request>)
    requires AccountedBut(s, t, rid) && SameElsewhere(s.txns[t], x, rid)
    requires Replaced(s.table[rid].requests, q.requests, t, entry) && Counters(q)
    requires entry.Some? ==> entry.value.txn == t
    ensures var r := State(s.table[rid := q], s.txns[t := x]);
            && AccountedBut(r, t, rid)
            && (Agrees(entry, rid, x) ==> Accounted(r))
  {
    hide Entry, Count, First;
    var r := State(s.table[rid := q], s.txns[t := x]);
    forall other | other in r.table && other != rid ensures QueueOk(r.table[other], other, r.txns) {
      forall u | u in r.txns ensures Agrees(Entry(r.table[other].requests, u), other, r.txns[u]) {
        assert Agrees(Entry(s.table[other].requests, u), other, s.txns[u]);
      }
    }
    forall u | u in r.txns && u != t ensures Agrees(Entry(q.requests, u), rid, r.txns[u]) {
      assert Agrees(Entry(s.table[rid].requests, u), rid, s.txns[u]);
    }
  }

  /** t has asked for a lock on `rid` and not been granted it. */
  ghost predicate Pending(s: State, t: TxnId, rid: Rid, call: Call) {
    && AccountedBut(s, t, rid)
    && Entry(s.table[rid].requests, t) == Some(Request(t, ModeOf(call), false))
    && rid !in s.txns[t].shared && rid !in s.txns[t].exclusive
    && (s.txns[t].pc == Idle || s.txns[t].pc == Waiting(rid, call))
  }

  lemma FinishAccounts(s: State, t: TxnId, rid: Rid, call: Call)
    requires Pending(s, t, rid, call) && Ready(s, t, rid, call)
    ensures HasRequest(s, t, rid) && Accounted(Finish(s, t, rid, call).0)
  {
    if s.txns[t].state == Aborted { GiveUpAccounts(s, t, rid, call); } else { GrantAccounts(s, t, rid, call); }
  }

  lemma GiveUpAccounts(s: State, t: TxnId, rid: Rid, call: Call)
    requires Pending(s, t, rid, call) && s.txns[t].state == Aborted
    ensures HasRequest(s, t, rid) && Accounted(Finish(s, t, rid, call).0)
  {
    hide First, Count, QueueOk;
    var q, x := s.table[rid], s.txns[t].(pc := Idle);
    Removed(q.requests, t);
    Requeue(s, t, rid, q.(requests := Without(q.requests, First(q.requests, t))), x, None);
    hide AccountedBut, Accounted;
  }

  lemma GrantAccounts(s: State, t: TxnId, rid: Rid, call: Call)
    requires Pending(s, t, rid, call) && Ready(s, t, rid, call) && s.txns[t].state != Aborted
    ensures HasRequest(s, t, rid) && Accounted(Finish(s, t, rid, call).0)
  {
    hide First, Count, QueueOk, Accounted;
    var g := Request(t, ModeOf(call), true);
    Updated(s.table[rid].requests, t, g);
    var r := Finish(s, t, rid, call).0;
    var q, x := r.table[rid], r.txns[t];
    assert Counters(s.table[rid]);
    assert Replaced(s.table[rid].requests, q.requests, t, Some(g));
    hide AccountedBut, Entry, OnePerTxn;
    assert Counters(q) && SameElsewhere(s.txns[t], x, rid) && Agrees(Some(g), rid, x);
    Requeue(s, t, rid, q, x, Some(g));
    assert r == State(s.table[rid := q], s.txns[t := x]);
  }

  lemma SleepAccounts(s: State, t: TxnId, rid: Rid, call: Call)
    requires Pending(s, t, rid, call)
    ensures Accounted(s.(txns := s.txns[t := s.txns[t].(pc := Waiting(rid, call))]))
  {
    hide First, Count;
    var q, x := s.table[rid], s.txns[t].(pc := Waiting(rid, call));
    var entry := Entry(q.requests, t);
    assert Replaced(q.requests, q.requests, t, entry);
    Requeue(s, t, rid, q, x, entry);
    assert s.table[rid := q] == s.table;
  }

  // ---------------------------------------------------------------- steps without wounds

  /** No younger transaction holds a lock this call would have to wait for. */
  ghost predicate NoVictim(s: State, t: TxnId, rid: Rid, call: Call)
    requires rid in s.table
  {
    MustWait(s.table[rid], call) ==> forall q :: q in s.table[rid].requests ==> !Wounded(q, t)
  }

  lemma {:induction false} NoWound(s: State, rid: Rid, t: TxnId, i: nat)
    requires rid in s.table && i <= |s.table[rid].requests|
    requires forall q :: q in s.table[rid].requests ==> q.txn in s.txns && !Wounded(q, t)
    ensures Wound(s, rid, t, i) == s
    decreases |s.table[rid].requests| - i
  {
    if i < |s.table[rid].requests| {
      assert s.table[rid].requests[i] in s.table[rid].requests;
      NoWound(s, rid, t, i + 1);
    }
  }

  lemma AcquireAccounts(s: State, t: TxnId, rid: Rid, call: Call)
    requires Pending(s, t, rid, call) && NoVictim(s, t, rid, call)
    ensures HasRequest(s, t, rid) && Accounted(Acquire(s, t, rid, call).0)
  {
    hide First, Count, Wound, Finish, QueueOk;
    if MustWait(s.table[rid], call) {
      NoWound(s, rid, t, 0);
      var u := if call.ForUpgrade? then s.(table := s.table[rid := s.table[rid].(upgrading := true)]) else s;
      assert Pending(u, t, rid, call);
      if Ready(u, t, rid, call) { FinishAccounts(u, t, rid, call); } else { SleepAccounts(u, t, rid, call); }
    } else {
      FinishAccounts(s, t, rid, call);
    }
  }

  lemma EnqueuePending(s: State, t: TxnId, rid: Rid, call: Call)
    requires Accounted(s) && t in s.txns && s.txns[t].pc == Idle
    requires rid !in s.txns[t].shared && rid !in s.txns[t].exclusive
    ensures Pending(Enqueue(s, t, rid, ModeOf(call)), t, rid, call)
  {
    hide First, Count, QueueOk, Accounted, AccountedBut;
    var q := if rid in s.table then s.table[rid] else EMPTY_QUEUE;
    var s1 := s.(table := s.table[rid := q]);
    NoRequestYet(s, t, rid);
    var request := Request(t, ModeOf(call), false);
    Appended(q.requests, t, ModeOf(call), false);
    var r := Enqueue(s, t, rid, ModeOf(call));
    hide OnePerTxn;
    Requeue(s1, t, rid, r.table[rid], s.txns[t], Some(request));
    assert r == State(s1.table[rid := r.table[rid]], s1.txns[t := s.txns[t]]);
  }

  lemma NoRequestYet(s: State, t: TxnId, rid: Rid)
    requires Accounted(s) && t in s.txns && s.txns[t].pc == Idle
    requires rid !in s.txns[t].shared && rid !in s.txns[t].exclusive
    ensures var q := if rid in s.table then s.table[rid] else EMPTY_QUEUE;
            && AccountedBut(s.(table := s.table[rid := q]), t, rid)
            && Entry(q.requests, t) == None && OnePerTxn(q.requests) && Counters(q)
  {
    hide First;
    if rid in s.table { assert s.table[rid := s.table[rid]] == s.table; } else { EntryOfNothing(); }
  }

  lemma EntryOfNothing()
    ensures forall u :: Entry([], u) == None
  {
  }

  /** A transaction that records a lock, awake, has it granted in the queue. */
  lemma HolderHasEntry(s: State, t: TxnId, rid: Rid)
    requires Accounted(s) && t in s.txns && s.txns[t].pc == Idle
    requires rid in s.txns[t].shared || rid in s.txns[t].exclusive
    ensures rid in s.table && AccountedBut(s, t, rid) && OnePerTxn(s.table[rid].requests) && Counters(s.table[rid])
    ensures Entry(s.table[rid].requests, t) == Some(Request(t, if rid in s.txns[t].shared then Shared else Exclusive, true))
    ensures rid in s.txns[t].shared <==> rid !in s.txns[t].exclusive
  {
    hide First, Count;
    assert rid in s.table;
    assert Agrees(Entry(s.table[rid].requests, t), rid, s.txns[t]);
  }

  lemma DemotePending(s: State, t: TxnId, rid: Rid)
    requires Accounted(s) && t in s.txns && s.txns[t].pc == Idle && rid in s.txns[t].shared
    ensures HasRequest(s, t, rid) && Pending(Demote(s, t, rid), t, rid, ForUpgrade)
  {
    hide First, Count, AccountedBut, Accounted;
    HolderHasEntry(s, t, rid);
    var q := s.table[rid];
    Updated(q.requests, t, Request(t, Exclusive, false));
    var r := Demote(s, t, rid);
    Requeue(s, t, rid, r.table[rid], r.txns[t], Some(Request(t, Exclusive, false)));
  }

  lemma UnlockAccounts(s: State, t: TxnId, rid: Rid)
    requires Accounted(s) && t in s.txns && s.txns[t].pc == Idle
    requires rid in s.txns[t].shared || rid in s.txns[t].exclusive
    ensures HasRequest(s, t, rid) && Accounted(DoUnlock(s, t, rid))
  {
    hide First, Count, AccountedBut, Accounted;
    HolderHasEntry(s, t, rid);
    var q := s.table[rid];
    Removed(q.requests, t);
    var r := DoUnlock(s, t, rid);
    Requeue(s, t, rid, r.table[rid], r.txns[t], None);
  }

  lemma RestateAccounts(s: State, t: TxnId, state: TxnState)
    requires Accounted(s) && t in s.txns
    ensures Accounted(SetState(s, t, state))
  {
    hide Entry, Count;
    var r := SetState(s, t, state);
    forall rid | rid in r.table ensures QueueOk(r.table[rid], rid, r.txns) {
      forall u | u in r.txns ensures Agrees(Entry(r.table[rid].requests, u), rid, r.txns[u]) {
        assert Agrees(Entry(s.table[rid].requests, u), rid, s.txns[u]);
      }
    }
  }

  lemma {:induction false} Stranger(requests: seq<Request>, u: TxnId)
    requires forall r :: r in requests ==> r.txn != u
    ensures Entry(requests, u) == None
  {
    if requests != [] { Stranger(requests[1..], u); }
  }

  lemma BeginAccounts(s: State, t: TxnId, iso: Isolation)
    requires Accounted(s) && t !in s.txns
    ensures Accounted(s.(txns := s.txns[t := Txn(iso, Growing, {}, {}, Idle)]))
  {
    hide Count;
    var r := s.(txns := s.txns[t := Txn(iso, Growing, {}, {}, Idle)]);
    forall rid | rid in r.table ensures QueueOk(r.table[rid], rid, r.txns) {
      var q := s.table[rid];
      forall u | u in r.txns ensures Agrees(Entry(q.requests, u), rid, r.txns[u]) {
        if u in s.txns { assert Agrees(Entry(q.requests, u), rid, s.txns[u]); } else { Stranger(q.requests, u); }
      }
    }
  }

  // ---------------------------------------------------------------- calls and their callers

  function CallOf(e: Event): Call
    requires IsLockCall(e)
  {
    if e.LockShared? then ForShared else if e.LockExclusive? then ForExclusive else ForUpgrade
  }

  /** The lock protocol asked of callers: never lock what is already locked, upgrade a shared
      lock, unlock what is held. */
  predicate Polite(s: State, e: Event)
    requires Enabled(s, e)
  {
    match e
    case LockShared(t, rid) => rid !in s.txns[t].shared && rid !in s.txns[t].exclusive
    case LockExclusive(t, rid) => rid !in s.txns[t].shared && rid !in s.txns[t].exclusive
    case LockUpgrade(t, rid) => rid in s.txns[t].shared
    case Unlock(t, rid) => rid in s.txns[t].shared || rid in s.txns[t].exclusive
    case _ => true
  }

  /** The state of a lock call once its request is in the queue, before it wounds or waits. */
  function Prepared(s: State, e: Event): (m: State)
    requires Enabled(s, e) && IsLockCall(e)
    ensures e.rid in m.table
  {
    if e.LockUpgrade? then Demote(s, e.t, e.rid) else Enqueue(s, e.t, e.rid, ModeOf(CallOf(e)))
  }

  /** The lock call throws before it touches the queue. */
  predicate Refused(s: State, e: Event)
    requires Enabled(s, e) && IsLockCall(e)
  {
    s.txns[e.t].state == Shrinking || (e.LockShared? && s.txns[e.t].iso.ReadUncommitted?)
    || (e.LockUpgrade? && s.table[e.rid].upgrading)
  }

  ghost predicate WoundFree(s: State, e: Event)
    requires Enabled(s, e)
  {
    IsLockCall(e) && !Refused(s, e) ==> NoVictim(Prepared(s, e), e.t, e.rid, CallOf(e))
  }

  lemma PreparedPending(s: State, e: Event)
    requires Accounted(s) && Enabled(s, e) && IsLockCall(e) && Polite(s, e)
    ensures Pending(Prepared(s, e), e.t, e.rid, CallOf(e))
  {
    hide First, Count, Accounted, Pending, Demote, Enqueue;
    if e.LockUpgrade? { DemotePending(s, e.t, e.rid); } else { EnqueuePending(s, e.t, e.rid, CallOf(e)); }
  }

  lemma SleeperPending(s: State, t: TxnId)
    requires Accounted(s) && t in s.txns && s.txns[t].pc.Waiting?
    ensures Pending(s, t, s.txns[t].pc.rid, s.txns[t].pc.call)
  {
    hide First, Count;
    var rid := s.txns[t].pc.rid;
    assert rid in s.table;
    assert Agrees(Entry(s.table[rid].requests, t), rid, s.txns[t]);
  }

  lemma LockCallAccounts(s: State, e: Event)
    requires Accounted(s) && Enabled(s, e) && IsLockCall(e) && Polite(s, e) && WoundFree(s, e)
    ensures Accounted(Step(s, e).0)
  {
    hide First, Count, Accounted, Pending, Acquire, NoVictim, Demote, Enqueue;
    if Refused(s, e) {
      RefusedAccounts(s, e);
    } else {
      PreparedPending(s, e);
      AcquireAccounts(Prepared(s, e), e.t, e.rid, CallOf(e));
    }
  }

  lemma RefusedAccounts(s: State, e: Event)
    requires Accounted(s) && Enabled(s, e)
    ensures e.t in s.txns ==> Accounted(SetState(s, e.t, Aborted)) && Accounted(SetState(s, e.t, Committed))
  {
    hide Accounted;
    if e.t in s.txns { RestateAccounts(s, e.t, Aborted); RestateAccounts(s, e.t, Committed); }
  }

  lemma StepAccounts(s: State, e: Event)
    requires Accounted(s) && Enabled(s, e) && Polite(s, e) && WoundFree(s, e)
    ensures Accounted(Step(s, e).0)
  {
    hide First, Count, Accounted, Acquire, NoVictim, Prepared, Finish, DoUnlock, Pending;
    if IsLockCall(e) {
      LockCallAccounts(s, e);
    } else {
      RefusedAccounts(s, e);
      match e
      case Begin(t, iso) => BeginAccounts(s, t, iso);
      case Wake(t) =>
        SleeperPending(s, t);
        FinishAccounts(s, t, s.txns[t].pc.rid, s.txns[t].pc.call);
      case Unlock(t, rid) => UnlockAccounts(s, t, rid);
      case _ =>
    }
  }

  // ---------------------------------------------------------------- steps with wounds

  /** Granted requests of the given mode, from index i on, that the call would wound. */
  function Victims(requests: seq<Request>, t: TxnId, i: nat, mode: Mode): (n: nat)
    requires i <= |requests|
    decreases |requests| - i
  {
    if i == |requests| then 0
    else (if Wounded(requests[i], t) && requests[i].mode == mode then 1 else 0) + Victims(requests, t, i + 1, mode)
  }

  /** u owns a granted request, from index i on, and is younger than t. */
  predicate IsVictim(requests: seq<Request>, t: TxnId, i: nat, u: TxnId) {
    exists j :: i <= j < |requests| && requests[j].txn == u && Wounded(requests[j], t)
  }

  lemma VictimUnfolds(requests: seq<Request>, t: TxnId, i: nat, u: TxnId)
    requires i < |requests|
    ensures IsVictim(requests, t, i, u) <==> IsVictim(requests, t, i + 1, u) || (requests[i].txn == u && Wounded(requests[i], t))
  {
    if j :| i <= j < |requests| && requests[j].txn == u && Wounded(requests[j], t) { assert j == i || j >= i + 1; }
  }

  /** A wound aborts exactly the owners of younger granted requests. */
  lemma {:induction false} WoundAborts(s: State, rid: Rid, t: TxnId, i: nat, u: TxnId)
    requires rid in s.table && i <= |s.table[rid].requests| && u in s.txns
    requires forall q :: q in s.table[rid].requests ==> q.txn in s.txns
    ensures Wound(s, rid, t, i).txns[u]
         == if IsVictim(s.table[rid].requests, t, i, u) then s.txns[u].(state := Aborted) else s.txns[u]
    decreases |s.table[rid].requests| - i
  {
    var requests := s.table[rid].requests;
    if i < |requests| {
      var s1 := WoundOne(s, rid, t, i);
      WoundAborts(s1, rid, t, i + 1, u);
      VictimUnfolds(requests, t, i, u);
      hide Wound, IsVictim;
    }
  }

  /** And touches nothing of the table but the two counters of the queue. */
  lemma {:induction false} WoundKeepsTable(s: State, rid: Rid, t: TxnId, i: nat)
    requires rid in s.table && i <= |s.table[rid].requests|
    requires forall q :: q in s.table[rid].requests ==> q.txn in s.txns
    ensures var w := Wound(s, rid, t, i);
            && w.table == s.table[rid := w.table[rid]]
            && w.table[rid] == s.table[rid].(sharing := w.table[rid].sharing, writing := w.table[rid].writing)
    decreases |s.table[rid].requests| - i
  {
    assert s.table == s.table[rid := s.table[rid]];
    if i < |s.table[rid].requests| {
      var s1 := WoundOne(s, rid, t, i);
      WoundKeepsTable(s1, rid, t, i + 1);
      assert s1.table == s.table[rid := s1.table[rid]];
      hide Wound;
    }
  }

  /** A wound gives back the shares of its victims. */
  lemma {:induction false} WoundTakesShares(s: State, rid: Rid, t: TxnId, i: nat)
    requires rid in s.table && i <= |s.table[rid].requests|
    requires forall q :: q in s.table[rid].requests ==> q.txn in s.txns
    ensures var w, q := Wound(s, rid, t, i).table[rid], s.table[rid];
            w.sharing == q.sharing - Victims(q.requests, t, i, Shared)
            && w.writing == (q.writing && Victims(q.requests, t, i, Exclusive) == 0)
    decreases |s.table[rid].requests| - i
  {
    var q := s.table[rid];
    if i < |q.requests| {
      assert q.requests[i] in q.requests;
      var s1 := WoundOne(s, rid, t, i);
      WoundTakesShares(s1, rid, t, i + 1);
      VictimsUnfolds(q.requests, t, i);
      hide Wound, Victims;
    }
  }

  lemma VictimsUnfolds(requests: seq<Request>, t: TxnId, i: nat)
    requires i < |requests|
    ensures forall m :: Victims(requests, t, i, m)
                     == Victims(requests, t, i + 1, m) + (if Wounded(requests[i], t) && requests[i].mode == m then 1 else 0)
  {}

  /** Every victim is granted, and every wounded request is a victim of its mode. */
  lemma {:induction false} VictimsAreGranted(requests: seq<Request>, t: TxnId, i: nat, mode: Mode)
    requires i <= |requests|
    ensures Victims(requests, t, i, mode) <= Count(requests[i..], mode)
    ensures forall j :: i <= j < |requests| && Wounded(requests[j], t) && requests[j].mode == mode ==> Victims(requests, t, i, mode) > 0
    decreases |requests| - i
  {
    if i < |requests| {
      VictimsAreGranted(requests, t, i + 1, mode);
      assert requests[i..][1..] == requests[i + 1..];
    }
  }

  lemma VictimExists(s: State, t: TxnId, rid: Rid, call: Call)
    requires Pending(s, t, rid, call) && !NoVictim(s, t, rid, call)
    ensures var requests := s.table[rid].requests;
            && Victims(requests, t, 0, Shared) + Victims(requests, t, 0, Exclusive) > 0
            && Victims(requests, t, 0, Shared) <= Count(requests, Shared)
            && Victims(requests, t, 0, Exclusive) <= Count(requests, Exclusive)
  {
    var requests := s.table[rid].requests;
    VictimsAreGranted(requests, t, 0, Shared);
    VictimsAreGranted(requests, t, 0, Exclusive);
    assert requests[0..] == requests;
    var q :| q in requests && Wounded(q, t);
    var j :| 0 <= j < |requests| && requests[j] == q;
    hide Pending, Victims, Count;
  }

  lemma BadCounters(s: State, rid: Rid)
    requires rid in s.table && !Counters(s.table[rid])
    ensures !Accounted(s)
  {}

  /** The counters after a wound do not match the requests, whether t then sleeps, gives up or is
      granted its lock. */
  lemma AcquireWithVictimsBreaks(s: State, t: TxnId, rid: Rid, call: Call)
    requires Pending(s, t, rid, call) && !NoVictim(s, t, rid, call)
    ensures HasRequest(s, t, rid) && !Accounted(Acquire(s, t, rid, call).0)
  {
    hide First, Count, Wound, QueueOk, Victims, Accounted;
    var q := s.table[rid];
    WoundTakesShares(s, rid, t, 0);
    VictimExists(s, t, rid, call);
    assert Counters(q) && OnePerTxn(q.requests);
    hide AccountedBut, OnePerTxn;
    Updated(q.requests, t, Request(t, ModeOf(call), true));
    Removed(q.requests, t);
    var r := Acquire(s, t, rid, call).0;
    assert !Counters(r.table[rid]);
    BadCounters(r, rid);
  }

  lemma StepIsAcquire(s: State, e: Event)
    requires Enabled(s, e) && IsLockCall(e) && !Refused(s, e)
    ensures var m := Prepared(s, e);
            && e.t in m.txns && HasRequest(m, e.t, e.rid) && Registered(m, e.rid)
            && Step(s, e) == Acquire(m, e.t, e.rid, CallOf(e))
  {
    hide First, Wound, Finish, AwaitOrFinish;
    if !e.LockUpgrade? {
      FirstInAppend(if e.rid in s.table then s.table[e.rid].requests else [], e.t, ModeOf(CallOf(e)));
    }
  }

  /** A step of a polite caller keeps the accounts if and only if it wounds nobody. */
  lemma StepAccountsIff(s: State, e: Event)
    requires Accounted(s) && Enabled(s, e) && Polite(s, e)
    ensures Accounted(Step(s, e).0) <==> WoundFree(s, e)
  {
    hide First, Count, Accounted, Pending, Acquire, NoVictim, Demote, Enqueue, Wound, Finish, DoUnlock, Step;
    if WoundFree(s, e) {
      StepAccounts(s, e);
    } else {
      PreparedPending(s, e);
      AcquireWithVictimsBreaks(Prepared(s, e), e.t, e.rid, CallOf(e));
      StepIsAcquire(s, e);
    }
  }

  // ---------------------------------------------------------------- whole runs

  ghost predicate PoliteRun(r: Run)
    requires IsRun(r)
  {
    forall i :: 0 <= i < |r.events| ==> Polite(r.states[i], r.events[i])
  }

  ghost predicate WoundFreeRun(r: Run)
    requires IsRun(r)
  {
    forall i :: 0 <= i < |r.events| ==> WoundFree(r.states[i], r.events[i])
  }

  /** In every run without wounds whose callers keep to the protocol, at every moment, across
      waits, upgrades and aborts, the lock table and the lock sets agree. */
  lemma {:induction false} RunAccounts(r: Run, n: nat)
    requires IsRun(r) && PoliteRun(r) && WoundFreeRun(r) && n <= |r.events|
    ensures Accounted(r.states[n])
  {
    hide Step, Enabled, Polite, WoundFree, QueueOk;
    if n > 0 {
      RunAccounts(r, n - 1);
      StepAccounts(r.states[n - 1], r.events[n - 1]);
    }
  }

  /** What agreement means for two transactions: an exclusive lock excludes every other lock. */
  lemma ExclusiveExcludes(s: State, t: TxnId, u: TxnId, rid: Rid)
    requires Accounted(s) && t in s.txns && u in s.txns && t != u && rid in s.txns[t].exclusive
    ensures rid !in s.txns[u].shared && rid !in s.txns[u].exclusive
  {
    hide First, Count;
    assert rid in s.table;
    var requests := s.table[rid].requests;
    assert Agrees(Entry(requests, t), rid, s.txns[t]) && Agrees(Entry(requests, u), rid, s.txns[u]);
    if Entry(requests, u).Some? && Entry(requests, u).value.granted {
      var m := Entry(requests, u).value.mode;
      TwoGranted(requests, t, u, m);
    }
  }

  /** Two different transactions' granted requests both count. */
  lemma TwoGranted(requests: seq<Request>, t: TxnId, u: TxnId, m: Mode)
    requires t != u && Entry(requests, t).Some? && Entry(requests, u).Some?
    requires Weight(Entry(requests, t), Exclusive) == 1 && Weight(Entry(requests, u), m) == 1
    ensures Count(requests, Exclusive) >= 1
    ensures m == Exclusive ==> Count(requests, Exclusive) >= 2
    ensures m == Shared ==> Count(requests, Shared) >= 1
  {
    var i, j := First(requests, t), First(requests, u);
    CountAround(requests, i, Exclusive);
    CountAround(requests, j, m);
    if m == Exclusive {
      if i < j {
        CountAround(requests[i + 1..], j - i - 1, Exclusive);
      } else {
        CountAround(requests[j + 1..], i - j - 1, Exclusive);
      }
    }
  }
}
