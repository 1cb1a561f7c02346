/** The lock manager itself: its tables changed in place, each critical section proved to be the
    step of the same name, and the release of all locks at the end of a transaction. */
module LockManager {
  import opened Common
  import opened Locks
  import opened Accounting

  class LockManager {
    var table: map<Rid, Queue>
    var txns: map<TxnId, Txn>

    ghost function View(): State
      reads this
    {
      State(table, txns)
    }

    constructor ()
      ensures View() == State(map[], map[])
    {
      table, txns := map[], map[];
    }

    method GetIterator(requests: seq<Request>, t: TxnId) returns (i: nat)
      ensures i == First(requests, t)
    {
      i := 0;
      while i < |requests|
        invariant i <= |requests|
        invariant First(requests, t) == i + First(requests[i..], t)
      {
        if requests[i].txn == t { return; }
        assert requests[i..][1..] == requests[i + 1..];
        i := i + 1;
      }
    }

    method DeadlockPrevent(t: TxnId, rid: Rid)
      requires rid in table && forall q :: q in table[rid].requests ==> q.txn in txns
      modifies this
      ensures View() == Wound(old(View()), rid, t, 0)
      ensures forall u :: u in txns ==>
        txns[u] == if IsVictim(old(table)[rid].requests, t, 0, u) then old(txns)[u].(state := Aborted) else old(txns)[u]
      ensures table == old(table)[rid := old(table)[rid].(
        sharing := old(table)[rid].sharing - Victims(old(table)[rid].requests, t, 0, Shared),
        writing := old(table)[rid].writing && Victims(old(table)[rid].requests, t, 0, Exclusive) == 0)]
    {
      WoundTakesShares(View(), rid, t, 0);
      WoundKeepsTable(View(), rid, t, 0);
      forall u | u in txns { WoundAborts(View(), rid, t, 0, u); }
      PerformWound(t, rid);
      hide Wound, IsVictim, Victims;
    }

    /** The loop itself. */
    method PerformWound(t: TxnId, rid: Rid)
      requires rid in table && forall q :: q in table[rid].requests ==> q.txn in txns
      modifies this
      ensures View() == Wound(old(View()), rid, t, 0)
    {
      var i, requests := 0, table[rid].requests;
      while i < |requests|
        invariant i <= |requests| && rid in table && table[rid].requests == requests
        invariant forall q :: q in requests ==> q.txn in txns
        invariant Wound(View(), rid, t, i) == Wound(old(View()), rid, t, 0)
      {
        var request := requests[i];
        assert request in requests;
        if request.granted && request.txn > t {
          txns := txns[request.txn := txns[request.txn].(state := Aborted)];
          if request.mode == Shared {
            table := table[rid := table[rid].(sharing := table[rid].sharing - 1)];
          } else {
            table := table[rid := table[rid].(writing := false)];
          }
        }
        i := i + 1;
      }
    }

    /** `CheckAborted` after a wait, then the grant. */
    method FinishCall(t: TxnId, rid: Rid, call: Call) returns (reply: Reply)
      requires t in txns && HasRequest(View(), t, rid)
      modifies this
      ensures (View(), reply) == Finish(old(View()), t, rid, call)
    {
      txns := txns[t := txns[t].(pc := Idle)];
      var i := GetIterator(table[rid].requests, t);
      if txns[t].state == Aborted {
        table := table[rid := table[rid].(requests := Without(table[rid].requests, i))];
        return Throws;
      }
      table := table[rid := table[rid].(requests := table[rid].requests[i := table[rid].requests[i].(granted := true)])];
      if call.ForShared? {
        txns := txns[t := txns[t].(shared := txns[t].shared + {rid})];
        table := table[rid := table[rid].(sharing := table[rid].sharing + 1)];
        reply := Granted(Shared);
      } else {
        txns := txns[t := txns[t].(exclusive := txns[t].exclusive + {rid})];
        if call.ForUpgrade? { table := table[rid := table[rid].(upgrading := false)]; }
        table := table[rid := table[rid].(writing := true)];
        reply := Granted(Exclusive);
      }
      assert table == old(table)[rid := table[rid]] && txns == old(txns)[t := txns[t]];
    }

    method AcquireOrSleep(t: TxnId, rid: Rid, call: Call) returns (reply: Reply)
      requires t in txns && HasRequest(View(), t, rid) && Registered(View(), rid)
      modifies this
      ensures (View(), reply) == Acquire(old(View()), t, rid, call)
    {
      if MustWait(table[rid], call) {
        DeadlockPrevent(t, rid);
        if call.ForUpgrade? { table := table[rid := table[rid].(upgrading := true)]; }
        if !Ready(State(table, txns), t, rid, call) {
          txns := txns[t := txns[t].(pc := Waiting(rid, call))];
          return Blocks;
        }
      }
      reply := FinishCall(t, rid, call);
    }

    method LockPrepare(t: TxnId, rid: Rid) returns (ok: bool)
      requires t in txns
      modifies this
      ensures ok <==> old(txns[t].state) != Shrinking
      ensures !ok ==> View() == SetState(old(View()), t, Aborted)
      ensures ok ==> txns == old(txns) && table == if rid in old(table) then old(table) else old(table)[rid := EMPTY_QUEUE]
    {
      if txns[t].state == Shrinking {
        txns := txns[t := txns[t].(state := Aborted)];
        return false;
      }
      if rid !in table { table := table[rid := EMPTY_QUEUE]; }
      ok := true;
    }

    method LockShared(t: TxnId, rid: Rid) returns (reply: Reply)
      requires Enabled(View(), Event.LockShared(t, rid))
      modifies this
      ensures (View(), reply) == Step(old(View()), Event.LockShared(t, rid))
    {
      hide First, Wound, Acquire;
      if txns[t].iso == ReadUncommitted {
        txns := txns[t := txns[t].(state := Aborted)];
        return Throws;
      }
      FirstInAppend(if rid in table then table[rid].requests else [], t, Shared);
      var ok := LockPrepare(t, rid);
      if !ok { return Throws; }
      table := table[rid := table[rid].(requests := table[rid].requests + [Request(t, Shared, false)])];
      assert View() == Enqueue(old(View()), t, rid, Shared);
      reply := AcquireOrSleep(t, rid, ForShared);
    }

    method LockExclusive(t: TxnId, rid: Rid) returns (reply: Reply)
      requires Enabled(View(), Event.LockExclusive(t, rid))
      modifies this
      ensures (View(), reply) == Step(old(View()), Event.LockExclusive(t, rid))
    {
      hide First, Wound, Acquire;
      FirstInAppend(if rid in table then table[rid].requests else [], t, Exclusive);
      var ok := LockPrepare(t, rid);
      if !ok { return Throws; }
      table := table[rid := table[rid].(requests := table[rid].requests + [Request(t, Exclusive, false)])];
      assert View() == Enqueue(old(View()), t, rid, Exclusive);
      reply := AcquireOrSleep(t, rid, ForExclusive);
    }

    method LockUpgrade(t: TxnId, rid: Rid) returns (reply: Reply)
      requires Enabled(View(), Event.LockUpgrade(t, rid))
      modifies this
      ensures (View(), reply) == Step(old(View()), Event.LockUpgrade(t, rid))
    {
      hide First, Wound, Acquire;
      if txns[t].state == Shrinking || table[rid].upgrading {
        txns := txns[t := txns[t].(state := Aborted)];
        return Throws;
      }
      txns := txns[t := txns[t].(shared := txns[t].shared - {rid})];
      table := table[rid := table[rid].(sharing := table[rid].sharing - 1)];
      var i := GetIterator(table[rid].requests, t);
      table := table[rid := table[rid].(requests := table[rid].requests[i := table[rid].requests[i].(mode := Exclusive, granted := false)])];
      assert View() == Demote(old(View()), t, rid);
      reply := AcquireOrSleep(t, rid, ForUpgrade);
    }

    /** A sleeping call whose condition has come true runs on. */
    method WakeUp(t: TxnId) returns (reply: Reply)
      requires Enabled(View(), Wake(t))
      modifies this
      ensures (View(), reply) == Step(old(View()), Wake(t))
    {
      reply := FinishCall(t, txns[t].pc.rid, txns[t].pc.call);
    }

    method Unlock(t: TxnId, rid: Rid)
      requires Enabled(View(), Event.Unlock(t, rid))
      modifies this
      ensures View() == Step(old(View()), Event.Unlock(t, rid)).0
    {
      hide First;
      txns := txns[t := txns[t].(shared := txns[t].shared - {rid}, exclusive := txns[t].exclusive - {rid})];
      var i := GetIterator(table[rid].requests, t);
      var mode := table[rid].requests[i].mode;
      table := table[rid := table[rid].(requests := Without(table[rid].requests, i))];
      if !(mode == Shared && txns[t].iso == ReadCommitted) && txns[t].state == Growing {
        txns := txns[t := txns[t].(state := Shrinking)];
      }
      if mode == Shared {
        table := table[rid := table[rid].(sharing := table[rid].sharing - 1)];
      } else {
        table := table[rid := table[rid].(writing := false)];
      }
    }

    /** `ReleaseLocks`, at commit or abort, of a wounded transaction too: every lock it records goes,
        one request each, nobody else's does, and accounts that were right stay right. The requests
        it looks for are there in every run of polite callers (LockSets.RunLocksListed). */
    method ReleaseLocks(t: TxnId)
      requires t in txns && txns[t].pc == Idle
      requires forall rid :: rid in txns[t].exclusive + txns[t].shared ==> HasRequest(View(), t, rid)
      modifies this
      ensures txns.Keys == old(txns).Keys && table.Keys == old(table).Keys
      ensures txns[t].shared == {} && txns[t].exclusive == {} && txns[t].pc == Idle
      ensures forall u :: u in txns && u != t ==> txns[u] == old(txns)[u]
      ensures forall rid :: rid in table ==>
        table[rid] == if rid in old(txns)[t].exclusive + old(txns)[t].shared then WithoutLockOf(old(table)[rid], t) else old(table)[rid]
      ensures old(Accounted(View())) ==> Accounted(View())
    {
      hide First, Count, Accounted, QueueOk;
      ghost var all := txns[t].exclusive + txns[t].shared;
      var lockSet := txns[t].exclusive + txns[t].shared;
      while exists rid :: rid in lockSet
        invariant txns.Keys == old(txns).Keys && table.Keys == old(table).Keys && lockSet <= all
        invariant txns[t].pc == Idle && txns[t].exclusive + txns[t].shared == lockSet
        invariant forall u :: u in txns && u != t ==> txns[u] == old(txns)[u]
        invariant forall rid :: rid in all ==> rid in table && First(old(table)[rid].requests, t) < |old(table)[rid].requests|
        invariant forall rid :: rid in table ==>
          table[rid] == if rid in all && rid !in lockSet then WithoutLockOf(old(table)[rid], t) else old(table)[rid]
        invariant old(Accounted(View())) ==> Accounted(View())
        decreases lockSet
      {
        var rid :| rid in lockSet;
        if old(Accounted(View())) { UnlockAccounts(View(), t, rid); }
        UnlockIs(View(), t, rid);
        Unlock(t, rid);
        lockSet := lockSet - {rid};
      }
      assert txns[t].exclusive + txns[t].shared == {};
    }
  }

  /** A queue after t's first request left it with its share of the counters. */
  function WithoutLockOf(q: Queue, t: TxnId): Queue {
    var i := First(q.requests, t);
    if i == |q.requests| then q
    else if q.requests[i].mode.Shared? then q.(requests := Without(q.requests, i), sharing := q.sharing - 1)
    else q.(requests := Without(q.requests, i), writing := false)
  }

  lemma UnlockIs(s: State, t: TxnId, rid: Rid)
    requires Enabled(s, Unlock(t, rid))
    ensures var r := Step(s, Unlock(t, rid)).0; var x := s.txns[t];
            && r.table == s.table[rid := WithoutLockOf(s.table[rid], t)]
            && r.txns.Keys == s.txns.Keys && (forall u :: u in s.txns && u != t ==> r.txns[u] == s.txns[u])
            && r.txns[t].pc == x.pc && r.txns[t].shared == x.shared - {rid} && r.txns[t].exclusive == x.exclusive - {rid}
  {
    hide First;
  }
}
