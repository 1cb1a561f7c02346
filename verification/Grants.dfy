/** When a lock call is granted, when it sleeps and whom it wounds, said in terms of who holds the
    record, without the manager's own tests. */
module Grants {
  import opened Common
  import opened Locks
  import opened Accounting

  // ---------------------------------------------------------------- whom a call finds in its way

  function ModeWanted(e: Event): Mode
    requires IsLockCall(e)
  {
    if e.LockShared? then Shared else Exclusive
  }

  /** The other transactions whose hold on the record excludes a hold of t in this mode. */
  function InTheWay(s: State, t: TxnId, rid: Rid, mode: Mode): set<TxnId> {
    set u | u in s.txns && u != t && (rid in s.txns[u].exclusive || (mode.Exclusive? && rid in s.txns[u].shared))
  }

  /** What a granted call leaves of its transaction. */
  function Holding(x: Txn, rid: Rid, mode: Mode): Txn {
    if mode.Shared? then x.(shared := x.shared + {rid}, pc := Idle)
    else x.(exclusive := x.exclusive + {rid}, pc := Idle)
  }

  /** The transaction as its lock call goes to the queue: an upgrade has given its shared lock up. */
  function Asking(x: Txn, e: Event): Txn
    requires IsLockCall(e)
  {
    if e.LockUpgrade? then x.(shared := x.shared - {e.rid}) else x
  }

  /** What a call that reached the queue leaves there: its request at the end, or for an upgrade in its
      old place, granted unless it sleeps; the upgrade mark while an upgrade sleeps; and counters that
      speak of the holders who are left, and of the call itself. */
  ghost predicate QueueAfter(s: State, q: Queue, e: Event, sleeps: bool)
    requires Enabled(s, e) && IsLockCall(e)
  {
    var before := if e.rid in s.table then s.table[e.rid] else EMPTY_QUEUE;
    var mode := ModeWanted(e);
    var way := InTheWay(s, e.t, e.rid, mode);
    var request := Request(e.t, mode, !sleeps);
    && q.requests == (if e.LockUpgrade? then before.requests[First(before.requests, e.t) := request] else before.requests + [request])
    && q.upgrading == (if e.LockUpgrade? then sleeps else before.upgrading)
    && CountersAfter(s, q, e.t, e.rid, mode, sleeps)
  }

  ghost predicate CountersAfter(s: State, q: Queue, t: TxnId, rid: Rid, mode: Mode, sleeps: bool) {
    var way := InTheWay(s, t, rid, mode);
    && (q.writing <==> (mode.Exclusive? && !sleeps) || exists u :: u in way && u < t && rid in s.txns[u].exclusive)
    && (q.sharing == 0 <==> (mode.Exclusive? || sleeps) && forall u :: u in s.txns && u != t && rid in s.txns[u].shared ==> u in way && u > t)
    && q.sharing >= 0
  }

  // ---------------------------------------------------------------- counting

  lemma {:induction false} Survivors(requests: seq<Request>, t: TxnId, i: nat, mode: Mode)
    requires i <= |requests|
    ensures Count(requests[i..], mode) >= Victims(requests, t, i, mode)
    ensures Count(requests[i..], mode) > Victims(requests, t, i, mode)
       <==> exists j :: i <= j < |requests| && requests[j].granted && requests[j].mode == mode && requests[j].txn <= t
    decreases |requests| - i
  {
    if i < |requests| {
      Survivors(requests, t, i + 1, mode);
      assert requests[i..][1..] == requests[i + 1..];
    }
  }

  lemma {:induction false} CountPositive(requests: seq<Request>, mode: Mode)
    ensures Count(requests, mode) > 0 <==> exists j :: 0 <= j < |requests| && requests[j].granted && requests[j].mode == mode
  {
    if requests != [] {
      CountPositive(requests[1..], mode);
      assert forall j :: 0 <= j < |requests| - 1 ==> requests[1..][j] == requests[j + 1];
    }
  }

  /** Somebody else's granted request, and that transaction's own record of the lock. */
  lemma GrantedIsHeld(s: State, t: TxnId, rid: Rid, call: Call, j: nat)
    requires Pending(s, t, rid, call) && j < |s.table[rid].requests| && s.table[rid].requests[j].granted
    ensures var q := s.table[rid].requests[j];
            && q.txn in s.txns && q.txn != t
            && (q.mode.Shared? <==> rid in s.txns[q.txn].shared) && (q.mode.Exclusive? <==> rid in s.txns[q.txn].exclusive)
  {
    hide Count, First;
    var requests := s.table[rid].requests;
    EntryIs(requests, j);
    assert requests[j] in requests;
    assert Entry(requests, requests[j].txn) == Some(requests[j]);
  }

  lemma HeldIsGranted(s: State, t: TxnId, rid: Rid, call: Call, u: TxnId) returns (j: nat)
    requires Pending(s, t, rid, call) && u in s.txns && u != t
    requires rid in s.txns[u].shared || rid in s.txns[u].exclusive
    ensures j < |s.table[rid].requests| && s.table[rid].requests[j].txn == u && s.table[rid].requests[j].granted
    ensures s.table[rid].requests[j].mode.Shared? <==> rid in s.txns[u].shared
    ensures s.table[rid].requests[j].mode.Exclusive? <==> rid in s.txns[u].exclusive
  {
    hide Count, First;
    var requests := s.table[rid].requests;
    assert Agrees(Entry(requests, u), rid, s.txns[u]);
    j := First(requests, u);
  }

  // ---------------------------------------------------------------- waiting and wounding

  /** The call waits exactly when somebody is in its way. */
  lemma WaitsIff(s: State, t: TxnId, rid: Rid, call: Call)
    requires Pending(s, t, rid, call)
    ensures MustWait(s.table[rid], call) <==> InTheWay(s, t, rid, ModeOf(call)) != {}
    ensures MustWait(s.table[rid], call) ==>
              forall j :: 0 <= j < |s.table[rid].requests| && s.table[rid].requests[j].granted ==>
                s.table[rid].requests[j].txn in InTheWay(s, t, rid, ModeOf(call))
  {
    hide Count, First;
    var requests := s.table[rid].requests;
    CountPositive(requests, Shared);
    CountPositive(requests, Exclusive);
    if u :| u in InTheWay(s, t, rid, ModeOf(call)) {
      var j := HeldIsGranted(s, t, rid, call, u);
    }
    forall j: nat | j < |requests| && requests[j].granted
      ensures requests[j].mode.Exclusive? || call != ForShared ==> requests[j].txn in InTheWay(s, t, rid, ModeOf(call))
    {
      GrantedIsHeld(s, t, rid, call, j);
    }
  }

  /** Every other holder's request is among the granted ones, and every granted request is a holder's. */
  lemma HoldersAreGranted(s: State, t: TxnId, rid: Rid, call: Call)
    requires Pending(s, t, rid, call)
    ensures forall u :: u in s.txns && u != t && (rid in s.txns[u].shared || rid in s.txns[u].exclusive) ==>
              GrantedAs(s.table[rid].requests, u, if rid in s.txns[u].shared then Shared else Exclusive)
    ensures forall u :: u in s.txns && u != t && rid in s.txns[u].exclusive ==> rid !in s.txns[u].shared
    ensures forall j :: 0 <= j < |s.table[rid].requests| && s.table[rid].requests[j].granted ==>
              var q := s.table[rid].requests[j];
              q.txn in s.txns && q.txn != t && rid in (if q.mode.Shared? then s.txns[q.txn].shared else s.txns[q.txn].exclusive)
  {
    hide First, Count;
    forall u | u in s.txns && u != t && (rid in s.txns[u].shared || rid in s.txns[u].exclusive)
      ensures GrantedAs(s.table[rid].requests, u, if rid in s.txns[u].shared then Shared else Exclusive)
      ensures rid in s.txns[u].exclusive ==> rid !in s.txns[u].shared
    {
      var j := HeldIsGranted(s, t, rid, call, u);
    }
    forall j | 0 <= j < |s.table[rid].requests| && s.table[rid].requests[j].granted
      ensures var q := s.table[rid].requests[j];
              q.txn in s.txns && q.txn != t && rid in (if q.mode.Shared? then s.txns[q.txn].shared else s.txns[q.txn].exclusive)
    {
      GrantedIsHeld(s, t, rid, call, j);
    }
  }

  predicate GrantedAs(requests: seq<Request>, u: TxnId, mode: Mode) {
    exists j :: 0 <= j < |requests| && requests[j].txn == u && requests[j].granted && requests[j].mode == mode
  }

  /** Whom the wound aborts. */
  lemma WoundAbortsYounger(s: State, t: TxnId, rid: Rid, call: Call)
    requires Pending(s, t, rid, call) && MustWait(s.table[rid], call)
    ensures forall u :: u in s.txns ==>
              Wound(s, rid, t, 0).txns[u] == if u in InTheWay(s, t, rid, ModeOf(call)) && u > t then s.txns[u].(state := Aborted) else s.txns[u]
  {
    hide Count, First, Wound;
    var requests, way := s.table[rid].requests, InTheWay(s, t, rid, ModeOf(call));
    WaitsIff(s, t, rid, call);
    HoldersAreGranted(s, t, rid, call);
    forall u | u in s.txns ensures IsVictim(requests, t, 0, u) <==> u in way && u > t {}
    forall u | u in s.txns { WoundAborts(s, rid, t, 0, u); }
    hide IsVictim, InTheWay, Pending;
  }

  /** And what is left in the counters: an older writer, */
  lemma WoundLeavesWriter(s: State, t: TxnId, rid: Rid, call: Call)
    requires Pending(s, t, rid, call)
    ensures Wound(s, rid, t, 0).table[rid].writing <==> exists u :: u in s.txns && u < t && rid in s.txns[u].exclusive
  {
    hide Count, First, Wound, Victims;
    var requests := s.table[rid].requests;
    HoldersAreGranted(s, t, rid, call);
    WoundTakesShares(s, rid, t, 0);
    Survivors(requests, t, 0, Exclusive);
    assert requests[0..] == requests;
    CountPositive(requests, Exclusive);
    assert Counters(s.table[rid]);
    hide AccountedBut;
  }

  /** or older sharers. */
  lemma WoundLeavesSharers(s: State, t: TxnId, rid: Rid, call: Call)
    requires Pending(s, t, rid, call)
    ensures var sharing := Wound(s, rid, t, 0).table[rid].sharing;
            sharing >= 0 && (sharing == 0 <==> forall u :: u in s.txns && u != t && rid in s.txns[u].shared ==> u > t)
  {
    hide Count, First, Wound, Victims;
    var requests := s.table[rid].requests;
    HoldersAreGranted(s, t, rid, call);
    WoundTakesShares(s, rid, t, 0);
    Survivors(requests, t, 0, Shared);
    assert requests[0..] == requests;
    assert Counters(s.table[rid]);
    hide AccountedBut;
  }

  /** A shared call that must wait waits for a writer, and then there are no sharers. */
  lemma WriterExcludesSharers(s: State, t: TxnId, rid: Rid, call: Call)
    requires Pending(s, t, rid, call) && MustWait(s.table[rid], call) && call == ForShared
    ensures forall u :: u in s.txns && u != t ==> rid !in s.txns[u].shared
  {
    hide Count, First;
    HoldersAreGranted(s, t, rid, call);
    CountPositive(s.table[rid].requests, Shared);
  }

  // ---------------------------------------------------------------- the shape of the outcome

  /** The state after the call has wounded whom it wounds. */
  function AfterWound(s: State, t: TxnId, rid: Rid, call: Call): (w: State)
    requires HasRequest(s, t, rid) && Registered(s, rid)
    ensures rid in w.table && w.txns.Keys == s.txns.Keys
  {
    if MustWait(s.table[rid], call) then Wound(s, rid, t, 0) else s
  }

  /** A call has to wait, and after the wound somebody is still there to wait for. */
  predicate Sleeps(s: State, t: TxnId, rid: Rid, call: Call)
    requires HasRequest(s, t, rid) && Registered(s, rid)
  {
    var q := AfterWound(s, t, rid, call).table[rid];
    MustWait(s.table[rid], call) && (q.writing || (call != ForShared && q.sharing != 0))
  }

  /** A call that is not aborted, in terms of the counters that the wound left. */
  lemma AcquireShape(s: State, t: TxnId, rid: Rid, call: Call)
    requires t in s.txns && HasRequest(s, t, rid) && Registered(s, rid) && s.txns[t].state != Aborted
    requires !s.table[rid].requests[First(s.table[rid].requests, t)].granted
    ensures var w, sleeps := AfterWound(s, t, rid, call), Sleeps(s, t, rid, call);
            var requests, q, i := s.table[rid].requests, w.table[rid], First(s.table[rid].requests, t);
            var shared := call == ForShared;
            && w.txns[t] == s.txns[t]
            && Acquire(s, t, rid, call) ==
                 (State(w.table[rid := Queue(requests[i := requests[i].(granted := !sleeps)], if call.ForUpgrade? then sleeps else q.upgrading,
                                             q.sharing + (if shared && !sleeps then 1 else 0), q.writing || (!shared && !sleeps))],
                        w.txns[t := if sleeps then s.txns[t].(pc := Waiting(rid, call)) else Holding(s.txns[t], rid, ModeOf(call))]),
                  if sleeps then Blocks else Granted(ModeOf(call)))
  {
    hide First, Wound;
    var w, i := AfterWound(s, t, rid, call), First(s.table[rid].requests, t);
    assert s.table[rid].requests[i := s.table[rid].requests[i]] == s.table[rid].requests;
    assert w.table[rid := w.table[rid]] == w.table;
    var r := Acquire(s, t, rid, call).0;
    assert r.table == w.table[rid := r.table[rid]];
  }

  /** A request in the queue of a transaction that is not aborted: granted at once if nobody is in the
      way; otherwise the younger ones in the way are aborted, and it sleeps exactly when an older one is
      left. */
  ghost predicate AcquiresSo(s: State, t: TxnId, rid: Rid, call: Call)
    requires Pending(s, t, rid, call) && HasRequest(s, t, rid)
  {
    var (r, reply) := Acquire(s, t, rid, call);
    var way := InTheWay(s, t, rid, ModeOf(call));
    var q, i := s.table[rid], First(s.table[rid].requests, t);
    && reply == (if exists u :: u in way && u < t then Blocks else Granted(ModeOf(call)))
    && r.txns.Keys == s.txns.Keys
    && (forall u :: u in s.txns && u != t ==>
         r.txns[u] == if u in way && u > t then s.txns[u].(state := Aborted) else s.txns[u])
    && r.txns[t] == (if reply.Blocks? then s.txns[t].(pc := Waiting(rid, call)) else Holding(s.txns[t], rid, ModeOf(call)))
    && (forall other :: other in s.table && other != rid ==> other in r.table && r.table[other] == s.table[other])
    && rid in r.table && CountersAfter(s, r.table[rid], t, rid, ModeOf(call), reply.Blocks?)
    && r.table[rid].requests == q.requests[i := q.requests[i].(granted := !reply.Blocks?)]
    && r.table[rid].upgrading == if call.ForUpgrade? then reply.Blocks? else q.upgrading
  }

  /** What the wound left, or what is there without one. */
  lemma AfterWoundIs(s: State, t: TxnId, rid: Rid, call: Call)
    requires Pending(s, t, rid, call) && HasRequest(s, t, rid) && Registered(s, rid)
    ensures var w, way := AfterWound(s, t, rid, call), InTheWay(s, t, rid, ModeOf(call));
            && (forall u :: u in s.txns && u != t ==>
                 w.txns[u] == if u in way && u > t then s.txns[u].(state := Aborted) else s.txns[u])
            && (forall other :: other in s.table && other != rid ==> other in w.table && w.table[other] == s.table[other])
            && w.table[rid].upgrading == s.table[rid].upgrading
            && (Sleeps(s, t, rid, call) <==> exists u :: u in way && u < t)
  {
    hide Count, First, Wound, MustWait, Pending;
    WaitsIff(s, t, rid, call);
    if MustWait(s.table[rid], call) {
      WoundAbortsYounger(s, t, rid, call);
      WoundLeavesWriter(s, t, rid, call);
      WoundLeavesSharers(s, t, rid, call);
      WoundKeepsTable(s, rid, t, 0);
      var way := InTheWay(s, t, rid, ModeOf(call));
      if call != ForShared {
        forall u | u in s.txns && u != t && rid in s.txns[u].shared ensures u in way {}
        if !(forall u :: u in s.txns && u != t && rid in s.txns[u].shared ==> u > t) {
          var u :| u in s.txns && u != t && rid in s.txns[u].shared && !(u > t);
          assert u in way && u < t;
        }
      }
      if u :| u in s.txns && u < t && rid in s.txns[u].exclusive { assert u in way; }
      if u :| u in way && u < t { assert u in s.txns && u != t; }
    }
  }

  lemma AfterWoundCounts(s: State, t: TxnId, rid: Rid, call: Call)
    requires Pending(s, t, rid, call) && HasRequest(s, t, rid) && Registered(s, rid)
    ensures var q := AfterWound(s, t, rid, call).table[rid];
            var sleeps, shared := Sleeps(s, t, rid, call), call == ForShared;
            CountersAfter(s, q.(sharing := q.sharing + (if shared && !sleeps then 1 else 0), writing := q.writing || (!shared && !sleeps)),
                          t, rid, ModeOf(call), sleeps)
  {
    hide Count, First, Wound, MustWait, Pending;
    WaitsIff(s, t, rid, call);
    if MustWait(s.table[rid], call) {
      WoundLeavesWriter(s, t, rid, call);
      WoundLeavesSharers(s, t, rid, call);
      if call == ForShared { WriterExcludesSharers(s, t, rid, call); }
    } else {
      NobodyHolds(s, t, rid, call);
    }
  }

  lemma SameCounts(s: State, q: Queue, p: Queue, t: TxnId, rid: Rid, mode: Mode, sleeps: bool)
    requires CountersAfter(s, q, t, rid, mode, sleeps) && p.sharing == q.sharing && p.writing == q.writing
    ensures CountersAfter(s, p, t, rid, mode, sleeps)
  {}

  lemma AcquireOutcome(s: State, t: TxnId, rid: Rid, call: Call)
    requires Pending(s, t, rid, call) && s.txns[t].state != Aborted
    ensures HasRequest(s, t, rid) && AcquiresSo(s, t, rid, call)
  {
    hide Count, First, Acquire, AfterWound, Sleeps, Pending, InTheWay, CountersAfter;
    PendingFacts(s, t, rid, call);
    AcquireShape(s, t, rid, call);
    AfterWoundIs(s, t, rid, call);
    AfterWoundCounts(s, t, rid, call);
    var q := AfterWound(s, t, rid, call).table[rid];
    var sleeps, shared := Sleeps(s, t, rid, call), call == ForShared;
    SameCounts(s, q.(sharing := q.sharing + (if shared && !sleeps then 1 else 0), writing := q.writing || (!shared && !sleeps)),
               Acquire(s, t, rid, call).0.table[rid], t, rid, ModeOf(call), sleeps);
  }

  lemma PendingFacts(s: State, t: TxnId, rid: Rid, call: Call)
    requires Pending(s, t, rid, call)
    ensures t in s.txns && HasRequest(s, t, rid) && Registered(s, rid)
    ensures !s.table[rid].requests[First(s.table[rid].requests, t)].granted
  {}

  /** The counters of a queue on which the call need not wait. */
  lemma NobodyHolds(s: State, t: TxnId, rid: Rid, call: Call)
    requires Pending(s, t, rid, call) && !MustWait(s.table[rid], call)
    ensures !s.table[rid].writing && s.table[rid].sharing >= 0
    ensures s.table[rid].sharing == 0 <==> forall u :: u in s.txns && u != t ==> rid !in s.txns[u].shared
    ensures forall u :: u in s.txns && u != t ==> rid !in s.txns[u].exclusive
  {
    hide Count, First;
    var requests := s.table[rid].requests;
    CountPositive(requests, Shared);
    CountPositive(requests, Exclusive);
    forall u | u in s.txns && u != t && (rid in s.txns[u].shared || rid in s.txns[u].exclusive)
      ensures exists j :: 0 <= j < |requests| && requests[j].txn == u && requests[j].granted
                && (requests[j].mode.Shared? <==> rid in s.txns[u].shared) && (requests[j].mode.Exclusive? <==> rid in s.txns[u].exclusive)
    {
      var j := HeldIsGranted(s, t, rid, call, u);
    }
    forall j: nat | j < |requests| && requests[j].granted
      ensures requests[j].txn in s.txns && requests[j].txn != t && (requests[j].mode.Shared? <==> rid in s.txns[requests[j].txn].shared)
    {
      GrantedIsHeld(s, t, rid, call, j);
    }
  }

  // ---------------------------------------------------------------- the calls

  /** The three reasons for which a call is turned away before it reaches the queue. */
  predicate TurnedAway(s: State, e: Event)
    requires Enabled(s, e) && IsLockCall(e)
  {
    s.txns[e.t].state == Shrinking || (e.LockShared? && s.txns[e.t].iso == ReadUncommitted)
    || (e.LockUpgrade? && s.table[e.rid].upgrading)
  }

  /** A call that is turned away throws, aborts its transaction, and does nothing else. */
  lemma TurnedAwayOutcome(s: State, e: Event)
    requires Enabled(s, e) && IsLockCall(e) && TurnedAway(s, e)
    ensures Step(s, e) == (s.(txns := s.txns[e.t := s.txns[e.t].(state := Aborted)]), Throws)
  {}

  lemma PreparedAsks(s: State, e: Event)
    requires Accounted(s) && Enabled(s, e) && IsLockCall(e) && Polite(s, e)
    ensures var m := Prepared(s, e);
            && m.txns == s.txns[e.t := Asking(s.txns[e.t], e)]
            && InTheWay(m, e.t, e.rid, ModeWanted(e)) == InTheWay(s, e.t, e.rid, ModeWanted(e))
            && (forall other :: other in s.table && other != e.rid ==> other in m.table && m.table[other] == s.table[other])
  {
    hide First, Count, Accounted;
    assert !e.LockUpgrade? ==> s.txns[e.t := s.txns[e.t]] == s.txns;
    var m := Prepared(s, e);
    forall u ensures u in InTheWay(m, e.t, e.rid, ModeWanted(e)) <==> u in InTheWay(s, e.t, e.rid, ModeWanted(e)) {
      if u in s.txns && u != e.t { assert m.txns[u] == s.txns[u]; }
    }
  }

  /** The outcome of every lock call that is not turned away, of a transaction not aborted: nobody in
      the way, and it is granted at once and changes no other transaction; otherwise the younger
      holders in the way are aborted, and it sleeps exactly when an older one is left. */
  lemma LockCallOutcome(s: State, e: Event)
    requires Accounted(s) && Enabled(s, e) && IsLockCall(e) && Polite(s, e)
    requires !TurnedAway(s, e) && s.txns[e.t].state != Aborted
    ensures var (r, reply) := Step(s, e);
            var mode := ModeWanted(e); var way := InTheWay(s, e.t, e.rid, mode);
            && reply == (if exists u :: u in way && u < e.t then Blocks else Granted(mode))
            && r.txns.Keys == s.txns.Keys
            && (forall u :: u in s.txns && u != e.t ==>
                 r.txns[u] == if u in way && u > e.t then s.txns[u].(state := Aborted) else s.txns[u])
            && r.txns[e.t] == (if reply.Blocks? then Asking(s.txns[e.t], e).(pc := Waiting(e.rid, CallOf(e)))
                               else Holding(Asking(s.txns[e.t], e), e.rid, mode))
            && (forall other :: other in s.table && other != e.rid ==> other in r.table && r.table[other] == s.table[other])
            && e.rid in r.table && QueueAfter(s, r.table[e.rid], e, reply.Blocks?)
  {
    hide First, Count, Accounted, Pending, Acquire, Demote, Enqueue, Wound, Step, InTheWay, CountersAfter;
    PreparedPending(s, e);
    PreparedAsks(s, e);
    StepIsAcquire(s, e);
    AcquireOutcome(Prepared(s, e), e.t, e.rid, CallOf(e));
    var (r, reply) := Step(s, e);
    PreparedCounts(s, r.table[e.rid], e, reply.Blocks?);
    PreparedQueue(s, e, !reply.Blocks?);
  }

  lemma PreparedCounts(s: State, q: Queue, e: Event, sleeps: bool)
    requires Accounted(s) && Enabled(s, e) && IsLockCall(e) && Polite(s, e)
    requires CountersAfter(Prepared(s, e), q, e.t, e.rid, ModeWanted(e), sleeps)
    ensures CountersAfter(s, q, e.t, e.rid, ModeWanted(e), sleeps)
  {
    PreparedAsks(s, e);
    SameCounters(Prepared(s, e), s, q, e.t, e.rid, ModeWanted(e), sleeps);
  }

  lemma SameCounters(m: State, s: State, q: Queue, t: TxnId, rid: Rid, mode: Mode, sleeps: bool)
    requires CountersAfter(m, q, t, rid, mode, sleeps) && InTheWay(m, t, rid, mode) == InTheWay(s, t, rid, mode)
    requires t in m.txns && s.txns.Keys == m.txns.Keys && forall u :: u in s.txns && u != t ==> m.txns[u] == s.txns[u]
    ensures CountersAfter(s, q, t, rid, mode, sleeps)
  {
    var way := InTheWay(s, t, rid, mode);
    assert forall u :: u in way ==> u in s.txns && u != t;
    hide InTheWay;
  }

  /** The prepared request, granted or not, in its place. */
  lemma PreparedQueue(s: State, e: Event, granted: bool)
    requires Accounted(s) && Enabled(s, e) && IsLockCall(e) && Polite(s, e)
    ensures var before := if e.rid in s.table then s.table[e.rid] else EMPTY_QUEUE;
            var m, request := Prepared(s, e).table[e.rid], Request(e.t, ModeWanted(e), granted);
            var i := First(m.requests, e.t);
            && i < |m.requests| && m.upgrading == before.upgrading
            && m.requests[i := m.requests[i].(granted := granted)] ==
                 (if e.LockUpgrade? then before.requests[First(before.requests, e.t) := request] else before.requests + [request])
  {
    hide First, Count;
    var before := if e.rid in s.table then s.table[e.rid] else EMPTY_QUEUE;
    if e.LockUpgrade? {
      var i := First(before.requests, e.t);
      var demoted := before.requests[i := before.requests[i].(mode := Exclusive, granted := false)];
      FirstKept(before.requests, demoted, e.t);
    } else {
      NoRequestYet(s, e.t, e.rid);
      FirstInAppend(before.requests, e.t, ModeWanted(e));
    }
  }

  /** Whatever the accounts say: a shared request of a transaction that is neither turned away nor
      aborted, on a queue that nobody writes, is granted at once; it counts as one sharer more, and no
      other transaction and no other queue changes. */
  lemma SharedIsGrantedAtOnce(s: State, t: TxnId, rid: Rid)
    requires Enabled(s, LockShared(t, rid)) && !HasRequest(s, t, rid)
    requires s.txns[t].iso != ReadUncommitted && s.txns[t].state != Shrinking && s.txns[t].state != Aborted
    requires rid in s.table ==> !s.table[rid].writing
    ensures var q := if rid in s.table then s.table[rid] else EMPTY_QUEUE;
            Step(s, LockShared(t, rid)) ==
              (State(s.table[rid := q.(requests := q.requests + [Request(t, Shared, true)], sharing := q.sharing + 1)],
                     s.txns[t := s.txns[t].(shared := s.txns[t].shared + {rid})]), Granted(Shared))
  {
    GrantedLast(if rid in s.table then s.table[rid].requests else [], t, Shared);
    hide First, Wound;
    var m := Enqueue(s, t, rid, Shared);
    var r := Step(s, LockShared(t, rid)).0;
    assert r == Finish(m, t, rid, ForShared).0;
    assert r.table == s.table[rid := r.table[rid]];
  }

  /** An exclusive request on a queue with no writer and no sharer likewise. */
  lemma ExclusiveIsGrantedAtOnce(s: State, t: TxnId, rid: Rid)
    requires Enabled(s, LockExclusive(t, rid)) && !HasRequest(s, t, rid)
    requires s.txns[t].state != Shrinking && s.txns[t].state != Aborted
    requires rid in s.table ==> !s.table[rid].writing && s.table[rid].sharing == 0
    ensures var q := if rid in s.table then s.table[rid] else EMPTY_QUEUE;
            Step(s, LockExclusive(t, rid)) ==
              (State(s.table[rid := q.(requests := q.requests + [Request(t, Exclusive, true)], writing := true)],
                     s.txns[t := s.txns[t].(exclusive := s.txns[t].exclusive + {rid})]), Granted(Exclusive))
  {
    GrantedLast(if rid in s.table then s.table[rid].requests else [], t, Exclusive);
    hide First, Wound;
    var m := Enqueue(s, t, rid, Exclusive);
    var r := Step(s, LockExclusive(t, rid)).0;
    assert r == Finish(m, t, rid, ForExclusive).0;
    assert r.table == s.table[rid := r.table[rid]];
  }

  /** And an upgrade whose transaction is the only sharer. */
  lemma UpgradeIsGrantedAtOnce(s: State, t: TxnId, rid: Rid)
    requires Enabled(s, LockUpgrade(t, rid)) && !s.table[rid].upgrading
    requires s.txns[t].state != Shrinking && s.txns[t].state != Aborted
    requires !s.table[rid].writing && s.table[rid].sharing == 1
    ensures var q, x := s.table[rid], s.txns[t];
            var i := First(q.requests, t);
            i < |q.requests| && Step(s, LockUpgrade(t, rid)) ==
              (State(s.table[rid := q.(requests := q.requests[i := Request(t, Exclusive, true)], sharing := 0, writing := true)],
                     s.txns[t := x.(shared := x.shared - {rid}, exclusive := x.exclusive + {rid})]), Granted(Exclusive))
  {
    hide First, Wound;
    var q := s.table[rid];
    var i := First(q.requests, t);
    var demoted := q.requests[i := q.requests[i].(mode := Exclusive, granted := false)];
    FirstKept(q.requests, demoted, t);
    assert demoted[i := demoted[i].(granted := true)] == q.requests[i := Request(t, Exclusive, true)];
    var m := Demote(s, t, rid);
    var r := Step(s, LockUpgrade(t, rid)).0;
    assert r == Finish(m, t, rid, ForUpgrade).0;
    assert r.table == s.table[rid := r.table[rid]] && r.txns == s.txns[t := r.txns[t]];
  }

  lemma GrantedLast(requests: seq<Request>, t: TxnId, mode: Mode)
    requires First(requests, t) == |requests|
    ensures var asked := requests + [Request(t, mode, false)];
            First(asked, t) == |requests| && asked[|requests| := asked[|requests|].(granted := true)] == requests + [Request(t, mode, true)]
  {
    FirstInAppend(requests, t, mode);
  }

  /** A lock call of a transaction that is aborted already throws, gains no lock, and leaves no request
      behind that was not there. */
  lemma AbortedCallThrows(s: State, e: Event)
    requires Enabled(s, e) && IsLockCall(e) && !TurnedAway(s, e) && s.txns[e.t].state == Aborted
    ensures var (r, reply) := Step(s, e);
            && reply == Throws && e.t in r.txns && r.txns[e.t] == Asking(s.txns[e.t], e)
            && e.rid in r.table
            && (!e.LockUpgrade? && !HasRequest(s, e.t, e.rid) ==>
                 r.table[e.rid].requests == if e.rid in s.table then s.table[e.rid].requests else [])
  {
    hide First, Wound, Acquire, Step;
    StepIsAcquire(s, e);
    var m := Prepared(s, e);
    assert m.txns == s.txns[e.t := Asking(s.txns[e.t], e)] by { assert !e.LockUpgrade? ==> s.txns[e.t := s.txns[e.t]] == s.txns; }
    AbortedGivesUp(m, e.t, e.rid, CallOf(e));
    var requests := if e.rid in s.table then s.table[e.rid].requests else [];
    EmptyHasNoRequest(e.t);
    if !e.LockUpgrade? {
      FirstInAppend(requests, e.t, ModeOf(CallOf(e)));
      var asked := requests + [Request(e.t, ModeOf(CallOf(e)), false)];
      assert First(requests, e.t) == |requests| ==> Without(asked, |requests|) == requests;
    }
  }

  lemma AbortedGivesUp(m: State, t: TxnId, rid: Rid, call: Call)
    requires t in m.txns && HasRequest(m, t, rid) && Registered(m, rid) && m.txns[t].state == Aborted && m.txns[t].pc == Idle
    ensures var (r, reply) := Acquire(m, t, rid, call);
            && reply == Throws && t in r.txns && r.txns[t] == m.txns[t] && rid in r.table
            && r.table[rid].requests == Without(m.table[rid].requests, First(m.table[rid].requests, t))
  {
    hide First, Wound;
  }

  lemma EmptyHasNoRequest(t: TxnId)
    ensures First([], t) == 0
  {}

  /** A sleeper that was wounded wakes to throw, and takes its request away. */
  lemma AbortedSleeperThrows(s: State, t: TxnId)
    requires Enabled(s, Wake(t)) && s.txns[t].state == Aborted
    ensures var rid := s.txns[t].pc.rid;
            var q := s.table[rid];
            Step(s, Wake(t)) ==
              (State(s.table[rid := q.(requests := Without(q.requests, First(q.requests, t)))], s.txns[t := s.txns[t].(pc := Idle)]), Throws)
  {}

  /** A sleeper that is not aborted wakes into its lock when nobody is in its way. */
  lemma SleeperIsGranted(s: State, t: TxnId)
    requires Accounted(s) && t in s.txns && s.txns[t].pc.Waiting? && s.txns[t].state != Aborted
    ensures var rid, mode := s.txns[t].pc.rid, ModeOf(s.txns[t].pc.call);
            && (Enabled(s, Wake(t)) <==> InTheWay(s, t, rid, mode) == {})
            && (Enabled(s, Wake(t)) ==>
                 var (r, reply) := Step(s, Wake(t));
                 && reply == Granted(mode) && r.txns == s.txns[t := Holding(s.txns[t], rid, mode)]
                 && r.table.Keys == s.table.Keys && forall other :: other in s.table && other != rid ==> r.table[other] == s.table[other])
  {
    hide First, Count, Accounted, AccountedBut;
    var rid, call := s.txns[t].pc.rid, s.txns[t].pc.call;
    SleeperPending(s, t);
    WaitsIff(s, t, rid, call);
    CountersAreExact(s, t, rid, call);
  }

  lemma CountersAreExact(s: State, t: TxnId, rid: Rid, call: Call)
    requires Pending(s, t, rid, call)
    ensures s.table[rid].sharing >= 0 && HasRequest(s, t, rid)
  {}

  /** What waking into the lock leaves in the queue: the request granted, the counters counting it, and
      no upgrade pending any more if this was one. */
  lemma WokenOutcome(s: State, t: TxnId)
    requires Enabled(s, Wake(t)) && s.txns[t].state != Aborted
    ensures var rid, call := s.txns[t].pc.rid, s.txns[t].pc.call;
            var q, i, shared := s.table[rid], First(s.table[rid].requests, t), call == ForShared;
            i < |q.requests| && Step(s, Wake(t)) ==
              (State(s.table[rid := Queue(q.requests[i := q.requests[i].(granted := true)], q.upgrading && call != ForUpgrade,
                                          q.sharing + (if shared then 1 else 0), q.writing || !shared)],
                     s.txns[t := Holding(s.txns[t], rid, if shared then Shared else Exclusive)]),
               Granted(if shared then Shared else Exclusive))
  {
    hide First;
  }

  /** The steps that are no lock calls: a transaction begins growing and empty-handed, ends in the state
      that commit or abort gives it, keeping its locks for the release that follows, and reads and writes
      without a change to the manager. */
  lemma OtherSteps(s: State, e: Event)
    requires Enabled(s, e)
    ensures e.Begin? ==> Step(s, e) == (s.(txns := s.txns[e.t := Txn(e.iso, Growing, {}, {}, Idle)]), Returns)
    ensures e.SetCommitted? ==> Step(s, e) == (s.(txns := s.txns[e.t := s.txns[e.t].(state := Committed)]), Returns)
    ensures e.SetAborted? ==> Step(s, e) == (s.(txns := s.txns[e.t := s.txns[e.t].(state := Aborted)]), Returns)
    ensures e.Read? || e.Write? ==> Step(s, e) == (s, Returns)
  {}

  /** An unlock takes the transaction's request out of the queue with its share of the counters, and
      ends a growing phase, unless the lock was a shared one under READ_COMMITTED: then the state is
      what it was. */
  lemma UnlockOutcome(s: State, t: TxnId, rid: Rid)
    requires Enabled(s, Unlock(t, rid))
    ensures var q, x := s.table[rid], s.txns[t];
            var i := First(q.requests, t);
            var shared := q.requests[i].mode == Shared;
            var state := if shared && x.iso == ReadCommitted then x.state else if x.state == Growing then Shrinking else x.state;
            var rest := q.requests[..i] + q.requests[i + 1..];
            Step(s, Unlock(t, rid)) ==
              (State(s.table[rid := if shared then q.(requests := rest, sharing := q.sharing - 1) else q.(requests := rest, writing := false)],
                     s.txns[t := x.(shared := x.shared - {rid}, exclusive := x.exclusive - {rid}, state := state)]), Returns)
  {
    hide First;
  }
}
