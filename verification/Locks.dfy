/** The lock manager as a step system. One step is one critical section: from acquiring the
    manager's latch to releasing it, by returning, by throwing, or by blocking on a queue. */
module Locks {
  import opened Common

  type TxnId = nat

  datatype Mode = Shared | Exclusive
  datatype Isolation = ReadUncommitted | RepeatableRead | ReadCommitted

  datatype Request = Request(txn: TxnId, mode: Mode, granted: bool)
  datatype Queue = Queue(requests: seq<Request>, upgrading: bool, sharing: int, writing: bool)

  /** Where a transaction's thread is: outside the manager, or asleep in one of the lock calls. */
  datatype Pc = Idle | Waiting(rid: Rid, call: Call)
  datatype Call = ForShared | ForExclusive | ForUpgrade

  datatype Txn = Txn(iso: Isolation, state: TxnState, shared: set<Rid>, exclusive: set<Rid>, pc: Pc)

  datatype State = State(table: map<Rid, Queue>, txns: map<TxnId, Txn>)

  datatype Event =
    | Begin(t: TxnId, iso: Isolation)
    | LockShared(t: TxnId, rid: Rid)
    | LockExclusive(t: TxnId, rid: Rid)
    | LockUpgrade(t: TxnId, rid: Rid)
    | Wake(t: TxnId)
    | Unlock(t: TxnId, rid: Rid)
    | SetCommitted(t: TxnId)
    | SetAborted(t: TxnId)
    | Read(t: TxnId, rid: Rid)
    | Write(t: TxnId, rid: Rid)

  /** What the step amounts to for its caller. */
  datatype Reply = Granted(mode: Mode) | Blocks | Throws | Returns

  const EMPTY_QUEUE := Queue([], false, 0, false)

  function SetState(s: State, t: TxnId, state: TxnState): State
    requires t in s.txns
  {
    s.(txns := s.txns[t := s.txns[t].(state := state)])
  }

  /** `GetIterator`: the first request of the transaction, or the end of the list. */
  function First(requests: seq<Request>, t: TxnId): (i: nat)
    ensures i <= |requests|
    ensures i < |requests| ==> requests[i].txn == t
    ensures forall j :: 0 <= j < i ==> requests[j].txn != t
  {
    if requests == [] then 0
    else if requests[0].txn == t then 0
    else 1 + First(requests[1..], t)
  }

  predicate HasRequest(s: State, t: TxnId, rid: Rid) {
    rid in s.table && First(s.table[rid].requests, t) < |s.table[rid].requests|
  }

  function Without(requests: seq<Request>, i: nat): seq<Request>
    requires i < |requests|
  {
    requests[..i] + requests[i + 1..]
  }

  // ---------------------------------------------------------------- wound-wait

  predicate Wounded(r: Request, t: TxnId) { r.granted && r.txn > t }

  /** `DeadlockPrevent` over the requests from index i on: every granted request of a younger
      transaction aborts its owner and gives its share of the counters back. */
  function Wound(s: State, rid: Rid, t: TxnId, i: nat): (r: State)
    requires rid in s.table && i <= |s.table[rid].requests|
    requires forall q :: q in s.table[rid].requests ==> q.txn in s.txns
    ensures r.table.Keys == s.table.Keys && r.txns.Keys == s.txns.Keys
    ensures r.table[rid].requests == s.table[rid].requests
    ensures forall u :: u in s.txns && u <= t ==> r.txns[u] == s.txns[u]
    ensures forall u :: u in s.txns ==> r.txns[u] == s.txns[u] || r.txns[u] == s.txns[u].(state := Aborted)
    decreases |s.table[rid].requests| - i
  {
    var q := s.table[rid];
    if i == |q.requests| then s
    else if Wounded(q.requests[i], t) then
      assert q.requests[i] in q.requests;
      var s1 := SetState(s, q.requests[i].txn, Aborted);
      var q1 := if q.requests[i].mode.Shared? then q.(sharing := q.sharing - 1) else q.(writing := false);
      Wound(s1.(table := s1.table[rid := q1]), rid, t, i + 1)
    else Wound(s, rid, t, i + 1)
  }

  /** One turn of that loop. */
  function WoundOne(s: State, rid: Rid, t: TxnId, i: nat): (r: State)
    requires rid in s.table && i < |s.table[rid].requests|
    requires forall q :: q in s.table[rid].requests ==> q.txn in s.txns
    ensures rid in r.table && r.table[rid].requests == s.table[rid].requests && r.txns.Keys == s.txns.Keys
    ensures Wound(s, rid, t, i) == Wound(r, rid, t, i + 1)
  {
    var q := s.table[rid];
    assert q.requests[i] in q.requests;
    if Wounded(q.requests[i], t) then
      var q1 := if q.requests[i].mode.Shared? then q.(sharing := q.sharing - 1) else q.(writing := false);
      var s1 := SetState(s, q.requests[i].txn, Aborted);
      s1.(table := s1.table[rid := q1])
    else s
  }

  // ---------------------------------------------------------------- granting

  /** The condition a blocked call waits for. */
  predicate Ready(s: State, t: TxnId, rid: Rid, call: Call)
    requires t in s.txns && rid in s.table
  {
    s.txns[t].state == Aborted ||
    (!s.table[rid].writing && (call.ForShared? || s.table[rid].sharing == 0))
  }

  /** What follows the wait: `CheckAborted`, then the grant. */
  function Finish(s: State, t: TxnId, rid: Rid, call: Call): (State, Reply)
    requires t in s.txns && HasRequest(s, t, rid)
  {
    var q, x := s.table[rid], s.txns[t].(pc := Idle);
    var i := First(q.requests, t);
    if x.state == Aborted then
      (State(s.table[rid := q.(requests := Without(q.requests, i))], s.txns[t := x]), Throws)
    else
      var granted := q.requests[i := q.requests[i].(granted := true)];
      match call
      case ForShared =>
        (State(s.table[rid := q.(requests := granted, sharing := q.sharing + 1)],
               s.txns[t := x.(shared := x.shared + {rid})]), Granted(Shared))
      case ForExclusive =>
        (State(s.table[rid := q.(requests := granted, writing := true)],
               s.txns[t := x.(exclusive := x.exclusive + {rid})]), Granted(Exclusive))
      case ForUpgrade =>
        (State(s.table[rid := q.(requests := granted, writing := true, upgrading := false)],
               s.txns[t := x.(exclusive := x.exclusive + {rid})]), Granted(Exclusive))
  }

  /** Fall asleep, unless the condition already holds. */
  function AwaitOrFinish(s: State, t: TxnId, rid: Rid, call: Call): (State, Reply)
    requires t in s.txns && HasRequest(s, t, rid)
  {
    if Ready(s, t, rid, call) then Finish(s, t, rid, call)
    else (s.(txns := s.txns[t := s.txns[t].(pc := Waiting(rid, call))]), Blocks)
  }

  predicate MustWait(q: Queue, call: Call) { q.writing || (!call.ForShared? && q.sharing > 0) }

  /** The part the three lock calls share once their request is in the queue: wound, then wait. */
  function Acquire(s: State, t: TxnId, rid: Rid, call: Call): (State, Reply)
    requires t in s.txns && HasRequest(s, t, rid)
    requires forall q :: q in s.table[rid].requests ==> q.txn in s.txns
  {
    if MustWait(s.table[rid], call) then
      var w := Wound(s, rid, t, 0);
      var u := if call.ForUpgrade? then w.(table := w.table[rid := w.table[rid].(upgrading := true)]) else w;
      AwaitOrFinish(u, t, rid, call)
    else Finish(s, t, rid, call)
  }

  /** `LockPrepare` past its check, and the new request at the end of the queue. */
  function Enqueue(s: State, t: TxnId, rid: Rid, mode: Mode): (r: State)
    ensures rid in r.table && r.txns == s.txns
  {
    var q := if rid in s.table then s.table[rid] else EMPTY_QUEUE;
    s.(table := s.table[rid := q.(requests := q.requests + [Request(t, mode, false)])])
  }

  lemma {:induction false} FirstInAppend(requests: seq<Request>, t: TxnId, mode: Mode)
    ensures First(requests + [Request(t, mode, false)], t) == First(requests, t)
  {
    if requests != [] && requests[0].txn != t {
      FirstInAppend(requests[1..], t, mode);
      assert (requests + [Request(t, mode, false)])[1..] == requests[1..] + [Request(t, mode, false)];
    }
  }

  /** The upgrade's own changes before it waits: the shared lock is given up. */
  function Demote(s: State, t: TxnId, rid: Rid): (r: State)
    requires t in s.txns && HasRequest(s, t, rid)
    ensures rid in r.table && r.txns.Keys == s.txns.Keys && HasRequest(r, t, rid)
  {
    var q := s.table[rid];
    var i := First(q.requests, t);
    var requests := q.requests[i := q.requests[i].(mode := Exclusive, granted := false)];
    FirstKept(q.requests, requests, t);
    State(s.table[rid := q.(sharing := q.sharing - 1, requests := requests)],
          s.txns[t := s.txns[t].(shared := s.txns[t].shared - {rid})])
  }

  lemma {:induction false} FirstKept(a: seq<Request>, b: seq<Request>, t: TxnId)
    requires |a| == |b| && forall j :: 0 <= j < |a| ==> a[j].txn == b[j].txn
    ensures First(a, t) == First(b, t)
  {
    if a != [] && a[0].txn != t { FirstKept(a[1..], b[1..], t); }
  }

  // ---------------------------------------------------------------- steps

  predicate Registered(s: State, rid: Rid) {
    rid in s.table ==> forall q :: q in s.table[rid].requests ==> q.txn in s.txns
  }

  /** The source's own demands on a step: lock calls come from threads outside the manager,
      an upgrade or unlock has a request to act on, a sleeper proceeds when its condition holds,
      data is touched under a lock. */
  predicate Enabled(s: State, e: Event) {
    match e
    case Begin(t, _) => t !in s.txns
    case LockShared(t, rid) => t in s.txns && s.txns[t].pc.Idle? && Registered(s, rid)
    case LockExclusive(t, rid) => t in s.txns && s.txns[t].pc.Idle? && Registered(s, rid)
    case LockUpgrade(t, rid) => t in s.txns && s.txns[t].pc.Idle? && Registered(s, rid) && HasRequest(s, t, rid)
    case Wake(t) =>
      && t in s.txns && s.txns[t].pc.Waiting?
      && HasRequest(s, t, s.txns[t].pc.rid) && Ready(s, t, s.txns[t].pc.rid, s.txns[t].pc.call)
    case Unlock(t, rid) => t in s.txns && s.txns[t].pc.Idle? && HasRequest(s, t, rid)
    case SetCommitted(t) => t in s.txns && s.txns[t].pc.Idle?
    case SetAborted(t) => t in s.txns && s.txns[t].pc.Idle?
    case Read(t, rid) => t in s.txns && s.txns[t].pc.Idle? && (rid in s.txns[t].shared || rid in s.txns[t].exclusive)
    case Write(t, rid) => t in s.txns && s.txns[t].pc.Idle? && rid in s.txns[t].exclusive
  }

  function DoLock(s: State, t: TxnId, rid: Rid, call: Call, mode: Mode): (State, Reply)
    requires t in s.txns && Registered(s, rid)
  {
    if s.txns[t].state == Shrinking then (SetState(s, t, Aborted), Throws)
    else
      FirstInAppend(if rid in s.table then s.table[rid].requests else [], t, mode);
      Acquire(Enqueue(s, t, rid, mode), t, rid, call)
  }

  function DoUpgrade(s: State, t: TxnId, rid: Rid): (State, Reply)
    requires t in s.txns && Registered(s, rid) && HasRequest(s, t, rid)
  {
    if s.txns[t].state == Shrinking || s.table[rid].upgrading then (SetState(s, t, Aborted), Throws)
    else
      var d := Demote(s, t, rid);
      Acquire(d, t, rid, ForUpgrade)
  }

  /** An unlock ends the growing phase, except for a shared lock under READ_COMMITTED. */
  predicate Exempt(mode: Mode, iso: Isolation) { mode.Shared? && iso.ReadCommitted? }

  function DoUnlock(s: State, t: TxnId, rid: Rid): State
    requires t in s.txns && HasRequest(s, t, rid)
  {
    var q, x := s.table[rid], s.txns[t];
    var i := First(q.requests, t);
    var mode := q.requests[i].mode;
    var q1 := q.(requests := Without(q.requests, i));
    State(s.table[rid := if mode.Shared? then q1.(sharing := q1.sharing - 1) else q1.(writing := false)],
          s.txns[t := x.(shared := x.shared - {rid}, exclusive := x.exclusive - {rid},
                         state := if !Exempt(mode, x.iso) && x.state == Growing then Shrinking else x.state)])
  }

  function Step(s: State, e: Event): (State, Reply)
    requires Enabled(s, e)
  {
    match e
    case Begin(t, iso) => (s.(txns := s.txns[t := Txn(iso, Growing, {}, {}, Idle)]), Returns)
    case LockShared(t, rid) =>
      if s.txns[t].iso.ReadUncommitted? then (SetState(s, t, Aborted), Throws)
      else DoLock(s, t, rid, ForShared, Shared)
    case LockExclusive(t, rid) => DoLock(s, t, rid, ForExclusive, Exclusive)
    case LockUpgrade(t, rid) => DoUpgrade(s, t, rid)
    case Wake(t) => Finish(s, t, s.txns[t].pc.rid, s.txns[t].pc.call)
    case Unlock(t, rid) => (DoUnlock(s, t, rid), Returns)
    case SetCommitted(t) => (SetState(s, t, Committed), Returns)
    case SetAborted(t) => (SetState(s, t, Aborted), Returns)
    case Read(_, _) => (s, Returns)
    case Write(_, _) => (s, Returns)
  }

  // ---------------------------------------------------------------- runs

  /** A finite run from the empty manager: states, events and replies, of any length. */
  datatype Run = Run(states: seq<State>, events: seq<Event>, replies: seq<Reply>)

  ghost predicate IsRun(r: Run) {
    && |r.states| == |r.events| + 1 && |r.replies| == |r.events|
    && r.states[0] == State(map[], map[])
    && forall i :: 0 <= i < |r.events| ==>
         Enabled(r.states[i], r.events[i]) && (r.states[i + 1], r.replies[i]) == Step(r.states[i], r.events[i])
  }

  predicate IsLockCall(e: Event) { e.LockShared? || e.LockExclusive? || e.LockUpgrade? }
}
