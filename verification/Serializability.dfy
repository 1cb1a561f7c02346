/** The two-phase-locking theorem: runs without wounds, all REPEATABLE_READ, in which nobody else
    writes a record while its reader's upgrade sleeps, have an acyclic conflict graph. */
module Serializability {
  import opened Common
  import opened Locks
  import opened Accounting
  import opened TwoPhase

  /** An upgrade at d of a record its transaction has touched goes to sleep, and before it wakes
      another transaction writes the record at j. */
  ghost predicate Disturbed(r: Run, d: nat, j: nat)
    requires |r.replies| == |r.events|
  {
    d < j < |r.events| && Blocked(r, d) && TouchedBefore(r, d) && Overwrites(r, d, j) && !WokeBetween(r, d, j)
  }

  ghost predicate UpgradesSleepUndisturbed(r: Run)
    requires |r.replies| == |r.events|
  {
    forall d: nat, j: nat :: !Disturbed(r, d, j)
  }

  predicate Touches(e: Event, t: TxnId, rid: Rid) { IsOp(e) && e.t == t && e.rid == rid }

  ghost predicate TouchedBefore(r: Run, d: nat)
    requires d < |r.events| && r.events[d].LockUpgrade?
  {
    exists i :: 0 <= i < d && Touches(r.events[i], r.events[d].t, r.events[d].rid)
  }

  /** The upgrader comes back to the record after the write at j. */
  ghost predicate TouchedAfter(r: Run, d: nat, j: nat)
    requires d < |r.events| && r.events[d].LockUpgrade?
  {
    exists k :: j < k < |r.events| && Touches(r.events[k], r.events[d].t, r.events[d].rid)
  }

  predicate Blocked(r: Run, d: nat)
    requires d < |r.events| == |r.replies|
  {
    r.events[d].LockUpgrade? && r.replies[d].Blocks?
  }

  predicate Overwrites(r: Run, d: nat, j: nat)
    requires d < |r.events| && j < |r.events| && r.events[d].LockUpgrade?
  {
    r.events[j].Write? && r.events[j].rid == r.events[d].rid && r.events[j].t != r.events[d].t
  }

  ghost predicate WokeBetween(r: Run, d: nat, j: nat)
    requires d < |r.events| && j <= |r.events|
  {
    exists g :: d < g < j && r.events[g] == Wake(r.events[d].t)
  }

  /** The rules of the locking header, on the strictest isolation level, and nobody wounded. */
  ghost predicate Ruled(r: Run) {
    && IsRun(r) && PoliteRun(r) && WoundFreeRun(r) && (forall t :: NoLocksAfterCommit(r, t))
    && (forall i :: 0 <= i < |r.events| && r.events[i].Begin? ==> r.events[i].iso == RepeatableRead)
  }

  /** The runs the theorem is about. */
  ghost predicate Disciplined(r: Run) { Ruled(r) && UpgradesSleepUndisturbed(r) }

  /** t holds a lock on rid at least as strong as m. */
  predicate Holds(s: State, t: TxnId, rid: Rid, m: Mode) {
    t in s.txns && (rid in s.txns[t].exclusive || (m.Shared? && rid in s.txns[t].shared))
  }

  predicate IsOp(e: Event) { e.Read? || e.Write? }

  function OpMode(e: Event): Mode
    requires IsOp(e)
  {
    if e.Write? then Exclusive else Shared
  }

  /** Two operations of different transactions on one record, at least one of them a write. */
  predicate Conflict(a: Event, b: Event) {
    IsOp(a) && IsOp(b) && a.t != b.t && a.rid == b.rid && (a.Write? || b.Write?)
  }

  /** An edge of the conflict graph: an operation of t precedes a conflicting one of u. */
  ghost predicate Edge(r: Run, t: TxnId, u: TxnId) {
    exists i, j :: 0 <= i < j < |r.events| && Conflict(r.events[i], r.events[j]) && r.events[i].t == t && r.events[j].t == u
  }

  /** t gives a lock up: by an unlock, or by an upgrade that throws. */
  predicate Releases(e: Event, reply: Reply, t: TxnId) {
    e.t == t && (e.Unlock? || (e.LockUpgrade? && reply.Throws?))
  }

  /** The moment of t's first release at or after n, or the end of the run. */
  function FirstRelease(r: Run, t: TxnId, n: nat): (u: nat)
    requires |r.events| == |r.replies| && n <= |r.events|
    ensures n <= u <= |r.events|
    ensures u < |r.events| ==> Releases(r.events[u], r.replies[u], t)
    ensures forall i :: n <= i < u ==> !Releases(r.events[i], r.replies[i], t)
    decreases |r.events| - n
  {
    if n == |r.events| || Releases(r.events[n], r.replies[n], t) then n else FirstRelease(r, t, n + 1)
  }

  // ---------------------------------------------------------------- single steps

  /** What a lock call does to the lock sets once its request is queued and nobody is wounded. */
  lemma AcquireLocks(s: State, t: TxnId, rid: Rid, call: Call)
    requires t in s.txns && HasRequest(s, t, rid) && Registered(s, rid) && NoVictim(s, t, rid, call)
    ensures var (r, reply) := Acquire(s, t, rid, call);
            && r.txns.Keys == s.txns.Keys
            && (forall u :: u in s.txns && u != t ==> r.txns[u] == s.txns[u])
            && s.txns[t].shared <= r.txns[t].shared && s.txns[t].exclusive <= r.txns[t].exclusive
            && (!reply.Granted? ==> r.txns[t].shared == s.txns[t].shared && r.txns[t].exclusive == s.txns[t].exclusive)
            && (reply.Granted? && !call.ForShared? ==> rid in r.txns[t].exclusive)
            && !reply.Returns?
  {
    hide First, Wound;
    if MustWait(s.table[rid], call) { NoWound(s, rid, t, 0); }
  }

  /** How one step may change which locks a transaction holds: it loses one by a release, or its
      shared lock on one record by an upgrade that blocks; it gains one by a grant. */
  ghost predicate LockChange(s: State, e: Event, r: State, reply: Reply) {
    forall t, rid, m ::
      && (Holds(s, t, rid, m) && !Holds(r, t, rid, m) ==>
            Releases(e, reply, t) || (e == LockUpgrade(t, rid) && reply.Blocks? && m.Shared?))
      && (!Holds(s, t, rid, m) && Holds(r, t, rid, m) ==> e.t == t && reply.Granted?)
  }

  lemma LockCallChange(s: State, e: Event)
    requires Enabled(s, e) && IsLockCall(e) && WoundFree(s, e)
    ensures LockChange(s, e, Step(s, e).0, Step(s, e).1)
  {
    hide First, Wound, Acquire;
    if s.txns[e.t].state == Shrinking || (e.LockShared? && s.txns[e.t].iso.ReadUncommitted?)
       || (e.LockUpgrade? && s.table[e.rid].upgrading) {
    } else {
      if !e.LockUpgrade? {
        FirstInAppend(if e.rid in s.table then s.table[e.rid].requests else [], e.t, ModeOf(CallOf(e)));
      }
      AcquireLocks(Prepared(s, e), e.t, e.rid, CallOf(e));
    }
  }

  lemma StepLockChange(s: State, e: Event)
    requires Enabled(s, e) && WoundFree(s, e)
    ensures LockChange(s, e, Step(s, e).0, Step(s, e).1)
  {
    hide First;
    if IsLockCall(e) { LockCallChange(s, e); }
  }

  lemma ReleaseEndsGrowth(s: State, e: Event)
    requires Enabled(s, e) && e.t in s.txns && s.txns[e.t].iso == RepeatableRead
    requires Releases(e, Step(s, e).1, e.t)
    ensures e.t in Step(s, e).0.txns && Step(s, e).0.txns[e.t].state != Growing
  {
    hide First, Wound, Acquire;
    if e.LockUpgrade? && s.txns[e.t].state != Shrinking && !s.table[e.rid].upgrading {
      AcquireEffect(Demote(s, e.t, e.rid), e.t, e.rid, ForUpgrade);
    }
  }

  // ---------------------------------------------------------------- along a run

  lemma DisciplinedStep(r: Run, n: nat)
    requires Disciplined(r) && n < |r.events|
    ensures Enabled(r.states[n], r.events[n]) && (r.states[n + 1], r.replies[n]) == Step(r.states[n], r.events[n])
    ensures Accounted(r.states[n])
    ensures LockChange(r.states[n], r.events[n], r.states[n + 1], r.replies[n])
    ensures forall t :: t in r.states[n].txns ==> t in r.states[n + 1].txns
  {
    hide Step, Enabled, LockChange, Accounted;
    RunAccounts(r, n);
    StepLockChange(r.states[n], r.events[n]);
    RunStep(r, n);
  }

  lemma {:induction false} AllRepeatableRead(r: Run, n: nat)
    requires Disciplined(r) && n <= |r.events|
    ensures forall t :: t in r.states[n].txns ==> r.states[n].txns[t].iso == RepeatableRead
  {
    if n > 0 {
      AllRepeatableRead(r, n - 1);
      var s, e := r.states[n - 1], r.events[n - 1];
      RunStep(r, n - 1);
      NewTxns(s, e);
    }
  }

  /** Only `Begin` brings a new transaction in. */
  lemma NewTxns(s: State, e: Event)
    requires Enabled(s, e)
    ensures forall t :: t in Step(s, e).0.txns && t !in s.txns ==> e.Begin? && e.t == t && Step(s, e).0.txns[t].iso == e.iso
  {
    hide First, Wound, Acquire;
    if IsLockCall(e) {
      if s.txns[e.t].state == Shrinking || (e.LockShared? && s.txns[e.t].iso.ReadUncommitted?)
         || (e.LockUpgrade? && s.table[e.rid].upgrading) {
      } else {
        if !e.LockUpgrade? {
          FirstInAppend(if e.rid in s.table then s.table[e.rid].requests else [], e.t, ModeOf(CallOf(e)));
        }
        AcquireEffect(Prepared(s, e), e.t, e.rid, CallOf(e));
      }
    }
  }

  lemma NoGrantAfterRelease(r: Run, t: TxnId, i: nat, j: nat)
    requires Disciplined(r) && i <= j < |r.events|
    requires Releases(r.events[i], r.replies[i], t) && r.events[j].t == t
    ensures !r.replies[j].Granted?
  {
    hide Step, Enabled, Accounted, LockChange;
    DisciplinedStep(r, i);
    if i < j {
      AllRepeatableRead(r, i);
      ReleaserIsKnown(r.states[i], r.events[i]);
      ReleaseEndsGrowth(r.states[i], r.events[i]);
      NeverGrowsAgain(r, t, i + 1, j);
      if r.replies[j].Granted? { GrantedWhileGrowing(r, j); }
    } else {
      ReleaseIsNoGrant(r.states[i], r.events[i]);
    }
  }

  lemma ReleaserIsKnown(s: State, e: Event)
    requires Enabled(s, e) && (e.Unlock? || e.LockUpgrade?)
    ensures e.t in s.txns
  {
  }

  lemma ReleaseIsNoGrant(s: State, e: Event)
    requires Enabled(s, e) && Releases(e, Step(s, e).1, e.t)
    ensures !Step(s, e).1.Granted?
  {
    hide First;
  }

  /** What a blocked upgrade leaves behind: its transaction asleep, alive. */
  predicate SleepsOn(s: State, t: TxnId, rid: Rid) {
    t in s.txns && s.txns[t].pc == Waiting(rid, ForUpgrade) && s.txns[t].state != Aborted
  }

  lemma BlockedSleeps(s: State, t: TxnId, rid: Rid)
    requires Enabled(s, LockUpgrade(t, rid)) && Step(s, LockUpgrade(t, rid)).1.Blocks?
    ensures SleepsOn(Step(s, LockUpgrade(t, rid)).0, t, rid)
  {
    hide First, Wound, Acquire;
    AcquireEffect(Demote(s, t, rid), t, rid, ForUpgrade);
  }

  /** Without wounds only its own wake-up ends the sleep. */
  lemma SleepGoesOn(s: State, e: Event, t: TxnId, rid: Rid)
    requires Enabled(s, e) && WoundFree(s, e) && SleepsOn(s, t, rid) && e != Wake(t)
    ensures SleepsOn(Step(s, e).0, t, rid)
  {
    hide First, Wound, Acquire;
    if IsLockCall(e) && !Refused(s, e) {
      if !e.LockUpgrade? {
        FirstInAppend(if e.rid in s.table then s.table[e.rid].requests else [], e.t, ModeOf(CallOf(e)));
      }
      AcquireLocks(Prepared(s, e), e.t, e.rid, CallOf(e));
    }
  }

  lemma WakeGrants(s: State, t: TxnId, rid: Rid)
    requires Enabled(s, Wake(t)) && SleepsOn(s, t, rid)
    ensures Holds(Step(s, Wake(t)).0, t, rid, Shared)
  {
    hide First;
  }

  /** A blocked upgrade that wakes before j holds the record at some moment in between. */
  lemma {:induction false} WokenHolds(r: Run, t: TxnId, rid: Rid, i: nat, g: nat) returns (h: nat)
    requires Disciplined(r) && i <= g < |r.events| && r.events[g] == Wake(t) && SleepsOn(r.states[i], t, rid)
    ensures i < h <= g + 1 && Holds(r.states[h], t, rid, Shared)
    decreases g - i
  {
    hide Step, Enabled, Accounted, LockChange, WoundFree;
    DisciplinedStep(r, i);
    assert WoundFree(r.states[i], r.events[i]);
    if r.events[i] == Wake(t) {
      WakeGrants(r.states[i], t, rid);
      h := i + 1;
    } else {
      SleepGoesOn(r.states[i], r.events[i], t, rid);
      h := WokenHolds(r, t, rid, i + 1, g);
    }
  }

  /** When a lock held at i and not at j was last given up. */
  lemma {:induction false} LastLoss(r: Run, t: TxnId, rid: Rid, m: Mode, i: nat, j: nat) returns (u: nat)
    requires Disciplined(r) && i <= j <= |r.events|
    requires Holds(r.states[i], t, rid, m) && !Holds(r.states[j], t, rid, m)
    ensures i <= u < j && Holds(r.states[u], t, rid, m)
    ensures forall x :: u < x <= j ==> !Holds(r.states[x], t, rid, m)
    decreases j - i
  {
    hide Step, Enabled, Accounted;
    if Holds(r.states[j - 1], t, rid, m) {
      u := j - 1;
    } else {
      u := LastLoss(r, t, rid, m, i, j - 1);
    }
  }

  /** A lock whose loss, after an operation under it, lets another transaction's conflicting operation
      in was given up by a release: a blocked upgrade gives a shared lock up too, but has it back before
      anybody writes. */
  lemma ReleasedBefore(r: Run, t: TxnId, rid: Rid, m: Mode, i: nat, j: nat) returns (u: nat)
    requires Disciplined(r) && i <= j < |r.events| && Touches(r.events[i], t, rid)
    requires Holds(r.states[i], t, rid, m) && !Holds(r.states[j], t, rid, m)
    requires IsOp(r.events[j]) && r.events[j].rid == rid && r.events[j].t != t && (m.Shared? ==> r.events[j].Write?)
    ensures i <= u < j && Holds(r.states[u], t, rid, m) && Releases(r.events[u], r.replies[u], t)
  {
    hide Step, Enabled, Accounted;
    u := LastLoss(r, t, rid, m, i, j);
    DisciplinedStep(r, u);
    assert !Holds(r.states[u + 1], t, rid, m);
    if !Releases(r.events[u], r.replies[u], t) {
      assert Blocked(r, u) && r.events[u] == LockUpgrade(t, rid) && m.Shared?;
      assert Overwrites(r, u, j) && TouchedBefore(r, u);
      assert !Disturbed(r, u, j);
      BlockedSleeps(r.states[u], t, rid);
      var g :| u < g < j && r.events[g] == Wake(t);
      var h := WokenHolds(r, t, rid, u + 1, g);
      assert false;
    }
  }

  /** A lock not held at i and held at j was granted in between. */
  lemma {:induction false} GrantedBetween(r: Run, t: TxnId, rid: Rid, m: Mode, i: nat, j: nat) returns (a: nat)
    requires Disciplined(r) && i <= j <= |r.events|
    requires !Holds(r.states[i], t, rid, m) && Holds(r.states[j], t, rid, m)
    ensures i <= a < j && r.events[a].t == t && r.replies[a].Granted?
    decreases j - i
  {
    hide Step, Enabled, Accounted;
    DisciplinedStep(r, i);
    if Holds(r.states[i + 1], t, rid, m) {
      a := i;
    } else {
      a := GrantedBetween(r, t, rid, m, i + 1, j);
    }
  }

  lemma HoldersDoNotConflict(s: State, t: TxnId, u: TxnId, rid: Rid, m: Mode, n: Mode)
    requires Accounted(s) && t != u && Holds(s, t, rid, m) && (m.Exclusive? || n.Exclusive?)
    ensures !Holds(s, u, rid, n)
  {
    hide Accounted;
    if Holds(s, u, rid, n) {
      if m.Exclusive? { ExclusiveExcludes(s, t, u, rid); } else { ExclusiveExcludes(s, u, t, rid); }
    }
  }

  lemma OpIsLocked(s: State, e: Event)
    requires Enabled(s, e) && IsOp(e)
    ensures Holds(s, e.t, e.rid, OpMode(e))
  {
  }

  // ---------------------------------------------------------------- the theorem

  /** Along every edge of the conflict graph the first release comes strictly later. */
  lemma EdgeOrdersReleases(r: Run, t: TxnId, u: TxnId)
    requires Disciplined(r) && Edge(r, t, u)
    ensures FirstRelease(r, t, 0) < FirstRelease(r, u, 0)
  {
    hide Step, Enabled, Accounted, LockChange;
    var i, j :| 0 <= i < j < |r.events| && Conflict(r.events[i], r.events[j]) && r.events[i].t == t && r.events[j].t == u;
    var rid, m, n := r.events[i].rid, OpMode(r.events[i]), OpMode(r.events[j]);
    DisciplinedStep(r, i); DisciplinedStep(r, j);
    OpIsLocked(r.states[i], r.events[i]);
    OpIsLocked(r.states[j], r.events[j]);
    HoldersDoNotConflict(r.states[j], u, t, rid, n, m);
    var k := ReleasedBefore(r, t, rid, m, i, j);
    DisciplinedStep(r, k);
    HoldersDoNotConflict(r.states[k], t, u, rid, m, n);
    var a := GrantedBetween(r, u, rid, n, k, j);
    assert k != a;
    var v := FirstRelease(r, u, 0);
    if v <= a { NoGrantAfterRelease(r, u, v, a); }
  }

  /** A path of the conflict graph. */
  ghost predicate IsPath(r: Run, path: seq<TxnId>) {
    |path| >= 1 && forall k :: 0 <= k < |path| - 1 ==> Edge(r, path[k], path[k + 1])
  }

  lemma {:induction false} PathOrdersReleases(r: Run, path: seq<TxnId>)
    requires Disciplined(r) && IsPath(r, path)
    ensures |path| >= 2 ==> FirstRelease(r, path[0], 0) < FirstRelease(r, path[|path| - 1], 0)
  {
    hide Disciplined, Edge;
    if |path| >= 2 {
      var rest := path[1..];
      forall k | 0 <= k < |rest| - 1 ensures Edge(r, rest[k], rest[k + 1]) {
        assert Edge(r, path[k + 1], path[k + 1 + 1]);
      }
      PathOrdersReleases(r, rest);
      EdgeOrdersReleases(r, path[0], path[1]);
    }
  }

  /** The conflict graph has no cycle, through committed transactions or others. */
  ghost predicate Acyclic(r: Run) {
    forall cycle: seq<TxnId> :: |cycle| >= 2 && cycle[0] == cycle[|cycle| - 1] ==> !IsPath(r, cycle)
  }

  /** Serializability. */
  lemma ConflictGraphIsAcyclic(r: Run)
    requires Disciplined(r)
    ensures Acyclic(r)
  {
    hide Disciplined;
    forall cycle: seq<TxnId> | |cycle| >= 2 && cycle[0] == cycle[|cycle| - 1] ensures !IsPath(r, cycle) {
      if IsPath(r, cycle) { PathOrdersReleases(r, cycle); }
    }
  }

  /** Where every disturbed upgrader comes back to its record, disturbed upgrades are the only way to
      lose serializability, and each one loses it. */
  lemma AcyclicIff(r: Run)
    requires Ruled(r) && forall d: nat, j: nat :: Disturbed(r, d, j) ==> TouchedAfter(r, d, j)
    ensures Acyclic(r) <==> UpgradesSleepUndisturbed(r)
  {
    if UpgradesSleepUndisturbed(r) {
      ConflictGraphIsAcyclic(r);
    } else {
      var d: nat, j: nat :| Disturbed(r, d, j);
      DisturbedUpgradeMakesCycle(r, d, j);
    }
  }

  /** The upgrader and the writer close a cycle: the upgrader's operation before, the write, and the
      upgrader's operation after. */
  lemma DisturbedUpgradeMakesCycle(r: Run, d: nat, j: nat)
    requires IsRun(r) && Disturbed(r, d, j) && TouchedAfter(r, d, j)
    ensures var t, u := r.events[d].t, r.events[j].t; t != u && IsPath(r, [t, u, t]) && !Acyclic(r)
  {
    hide IsRun;
    var t, u := r.events[d].t, r.events[j].t;
    var i :| 0 <= i < d && Touches(r.events[i], t, r.events[d].rid);
    var k :| j < k < |r.events| && Touches(r.events[k], t, r.events[d].rid);
    assert Conflict(r.events[i], r.events[j]) && Conflict(r.events[j], r.events[k]);
    assert Edge(r, t, u) && Edge(r, u, t);
    hide Edge;
    var cycle := [t, u, t];
    assert IsPath(r, cycle);
  }
}
