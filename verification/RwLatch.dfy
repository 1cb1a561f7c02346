/** The reader-writer latch as an interleaving step system. Each step is what one thread does between
    taking the latch's mutex and giving it up, by returning or by waiting; a sleeping thread may wake
    at any time, notified or not. */
module RwLatch {
  import opened Common

  type Tid = nat

  /** Where a thread is: the three sleeping places carry whether it has been notified since it went
      to sleep. The first and last wait on `reader_`, a draining writer on `writer_`. */
  datatype Loc = Idle | WantsWrite(notified: bool) | Draining(notified: bool) | Writing | WantsRead(notified: bool) | Reading

  datatype State = State(readers: nat, entered: bool, loc: map<Tid, Loc>)

  datatype Event = WLock(t: Tid) | RLock(t: Tid) | Wake(t: Tid) | WUnlock(t: Tid) | RUnlock(t: Tid, woken: set<Tid>)

  // ---------------------------------------------------------------- steps

  function Drain(s: State, t: Tid): State {
    s.(loc := s.loc[t := if s.readers > 0 then Draining(false) else Writing])
  }

  function TryWrite(s: State, t: Tid): State {
    if s.entered then s.(loc := s.loc[t := WantsWrite(false)]) else Drain(s.(entered := true), t)
  }

  function TryRead(s: State, t: Tid, max: nat): State {
    if s.entered || s.readers == max then s.(loc := s.loc[t := WantsRead(false)])
    else s.(readers := s.readers + 1, loc := s.loc[t := Reading])
  }

  function Notified(l: Loc): Loc {
    match l
    case WantsWrite(_) => WantsWrite(true)
    case WantsRead(_) => WantsRead(true)
    case Draining(_) => Draining(true)
    case _ => l
  }

  /** Asleep on `reader_`, on `writer_`, and not notified yet. */
  predicate SleepsOnReader(s: State, t: Tid) {
    t in s.loc && (s.loc[t] == WantsWrite(false) || s.loc[t] == WantsRead(false))
  }

  predicate SleepsOnWriter(s: State, t: Tid) { t in s.loc && s.loc[t] == Draining(false) }

  function ReaderSleepers(s: State): set<Tid> { set t | t in s.loc && SleepsOnReader(s, t) }

  function WriterSleepers(s: State): set<Tid> { set t | t in s.loc && SleepsOnWriter(s, t) }

  /** `notify_one`: one of the sleepers, if there is any. */
  predicate OneOf(woken: set<Tid>, sleepers: set<Tid>) {
    woken <= sleepers && |woken| <= 1 && (sleepers != {} ==> woken != {})
  }

  function Notify(loc: map<Tid, Loc>, woken: set<Tid>): map<Tid, Loc> {
    map t | t in loc :: if t in woken then Notified(loc[t]) else loc[t]
  }

  predicate Enabled(s: State, e: Event, max: nat) {
    && e.t in s.loc
    && match e
       case WLock(t) => s.loc[t].Idle?
       case RLock(t) => s.loc[t].Idle?
       case Wake(t) => s.loc[t].WantsWrite? || s.loc[t].Draining? || s.loc[t].WantsRead?
       case WUnlock(t) => s.loc[t].Writing?
       case RUnlock(t, woken) =>
         && s.loc[t].Reading? && s.readers > 0
         && if s.entered then (if s.readers == 1 then OneOf(woken, WriterSleepers(s)) else woken == {})
            else (if s.readers == max then OneOf(woken, ReaderSleepers(s)) else woken == {})
  }

  function Step(s: State, e: Event, max: nat): State
    requires Enabled(s, e, max)
  {
    match e
    case WLock(t) => TryWrite(s, t)
    case RLock(t) => TryRead(s, t, max)
    case Wake(t) =>
      if s.loc[t].WantsWrite? then TryWrite(s, t) else if s.loc[t].Draining? then Drain(s, t) else TryRead(s, t, max)
    case WUnlock(t) => State(s.readers, false, Notify(s.loc[t := Idle], ReaderSleepers(s)))
    case RUnlock(t, woken) => State(s.readers - 1, s.entered, Notify(s.loc[t := Idle], woken))
  }

  // ---------------------------------------------------------------- what the calls are for

  /** A writer's call, or its wake-up while it waits to claim the latch: behind a claim it sleeps; a
      free latch it takes; one that has readers it claims, and waits for them. */
  lemma WriterOutcome(s: State, e: Event, max: nat)
    requires Enabled(s, e, max) && (e.WLock? || (e.Wake? && s.loc[e.t].WantsWrite?))
    ensures Step(s, e, max) == State(s.readers, true, s.loc[e.t :=
              if s.entered then WantsWrite(false) else if s.readers == 0 then Writing else Draining(false)])
  {}

  /** A writer that has claimed the latch takes it as soon as it wakes to find no readers. */
  lemma DrainerOutcome(s: State, t: Tid, max: nat)
    requires Enabled(s, Wake(t), max) && s.loc[t].Draining?
    ensures Step(s, Wake(t), max) == State(s.readers, s.entered, s.loc[t := if s.readers == 0 then Writing else Draining(false)])
  {}

  /** A reader's call or wake-up: it enters unless a writer has claimed the latch or it is full. */
  lemma ReaderOutcome(s: State, e: Event, max: nat)
    requires Enabled(s, e, max) && (e.RLock? || (e.Wake? && s.loc[e.t].WantsRead?))
    ensures Step(s, e, max) ==
      if !s.entered && s.readers != max then State(s.readers + 1, false, s.loc[e.t := Reading])
      else State(s.readers, s.entered, s.loc[e.t := WantsRead(false)])
  {}

  /** A writer that leaves frees the latch and notifies everybody who waits to enter, and nobody else. */
  lemma WriterLeaves(s: State, t: Tid, max: nat)
    requires Enabled(s, WUnlock(t), max)
    ensures var r := Step(s, WUnlock(t), max);
            && r.readers == s.readers && !r.entered && r.loc.Keys == s.loc.Keys && r.loc[t] == Idle
            && forall u :: u in s.loc && u != t ==>
                 r.loc[u] == match s.loc[u]
                             case WantsWrite(_) => WantsWrite(true)
                             case WantsRead(_) => WantsRead(true)
                             case l => l
  {}

  /** A reader that leaves lets in whom it should: the last one under a claim notifies one sleeping
      writer that claimed, the first one off a full unclaimed latch one sleeper on the reader condition;
      otherwise nobody is notified. Nobody moves but the reader. */
  lemma ReaderLeaves(s: State, e: Event, max: nat)
    requires Enabled(s, e, max) && e.RUnlock?
    ensures var r := Step(s, e, max);
            && r.readers == s.readers - 1 && r.entered == s.entered && r.loc.Keys == s.loc.Keys && r.loc[e.t] == Idle
            && (forall u :: u in s.loc && u != e.t ==> r.loc[u] == if u in e.woken then Notified(s.loc[u]) else s.loc[u])
            && |e.woken| <= 1
            && (s.entered && s.readers == 1 ==> (forall u :: u in e.woken ==> s.loc[u] == Draining(false)))
            && (s.entered && s.readers == 1 && (exists u :: u in s.loc && s.loc[u] == Draining(false)) ==> e.woken != {})
            && (!s.entered && s.readers == max ==> (forall u :: u in e.woken ==> s.loc[u] == WantsWrite(false) || s.loc[u] == WantsRead(false)))
            && (!s.entered && s.readers == max && (exists u :: u in s.loc && s.loc[u] in {WantsWrite(false), WantsRead(false)}) ==> e.woken != {})
            && (!(s.entered && s.readers == 1) && !(!s.entered && s.readers == max) ==> e.woken == {})
  {
    if u :| u in s.loc && s.loc[u] == Draining(false) { assert u in WriterSleepers(s); }
    if u :| u in s.loc && s.loc[u] in {WantsWrite(false), WantsRead(false)} { assert u in ReaderSleepers(s); }
  }

  function Start(threads: set<Tid>): State { State(0, false, map t | t in threads :: Idle) }

  predicate IsRun(s: State, events: seq<Event>, max: nat)
    decreases |events|
  {
    events == [] || (Enabled(s, events[0], max) && IsRun(Step(s, events[0], max), events[1..], max))
  }

  function Run(s: State, events: seq<Event>, max: nat): State
    requires IsRun(s, events, max)
    decreases |events|
  {
    if events == [] then s else Run(Step(s, events[0], max), events[1..], max)
  }

  // ---------------------------------------------------------------- safety

  function Readers(s: State): set<Tid> { set t | t in s.loc && s.loc[t].Reading? }

  /** A thread past its claim of the latch for writing. */
  predicate Claims(s: State, t: Tid) { t in s.loc && (s.loc[t].Draining? || s.loc[t].Writing?) }

  ghost predicate Inv(s: State, max: nat) {
    && s.readers == |Readers(s)| && s.readers <= max
    && (forall t, u :: Claims(s, t) && Claims(s, u) ==> t == u)
    && (s.entered <==> exists t :: Claims(s, t))
    && (forall t :: Claims(s, t) && s.loc[t].Writing? ==> s.readers == 0)
  }

  /** Moving one thread changes the set of readers by that thread alone. */
  lemma MoveChangesReaders(s: State, r: State, t: Tid, l: Loc)
    requires t in s.loc && r.loc == s.loc[t := l]
    ensures |Readers(r)| == |Readers(s)| + (if l.Reading? then 1 else 0) - (if s.loc[t].Reading? then 1 else 0)
    ensures forall u :: Claims(r, u) <==> if u == t then l.Draining? || l.Writing? else Claims(s, u)
  {
    if l.Reading? {
      assert Readers(r) == Readers(s) + {t};
      assert t in Readers(s) <==> s.loc[t].Reading?;
    } else {
      assert Readers(r) == Readers(s) - {t};
      assert t in Readers(s) <==> s.loc[t].Reading?;
    }
  }

  /** Notifying moves nobody. */
  lemma NotifyChangesNothing(s: State, r: State, woken: set<Tid>)
    requires r.loc == Notify(s.loc, woken)
    ensures Readers(r) == Readers(s) && r.loc.Keys == s.loc.Keys
    ensures forall u :: Claims(r, u) <==> Claims(s, u)
    ensures forall u :: u in s.loc ==> (r.loc[u].Writing? <==> s.loc[u].Writing?)
  {}

  lemma TryWriteKeepsInv(s: State, t: Tid, max: nat)
    requires Inv(s, max) && t in s.loc && !s.loc[t].Reading? && !Claims(s, t)
    ensures Inv(TryWrite(s, t), max)
  {
    var r := TryWrite(s, t);
    MoveChangesReaders(s, r, t, r.loc[t]);
    hide Readers;
    assert !s.entered ==> Claims(r, t);
  }

  lemma TryReadKeepsInv(s: State, t: Tid, max: nat)
    requires Inv(s, max) && t in s.loc && !s.loc[t].Reading? && !Claims(s, t)
    ensures Inv(TryRead(s, t, max), max)
  {
    var r := TryRead(s, t, max);
    MoveChangesReaders(s, r, t, r.loc[t]);
    hide Readers;
  }

  lemma DrainKeepsInv(s: State, t: Tid, max: nat)
    requires Inv(s, max) && t in s.loc && s.loc[t].Draining?
    ensures Inv(Drain(s, t), max)
  {
    var r := Drain(s, t);
    MoveChangesReaders(s, r, t, r.loc[t]);
    hide Readers;
    assert Claims(s, t) && Claims(r, t);
  }

  lemma ReleaseKeepsInv(s: State, e: Event, max: nat)
    requires Inv(s, max) && Enabled(s, e, max) && (e.WUnlock? || e.RUnlock?)
    ensures Inv(Step(s, e, max), max) && Step(s, e, max).loc.Keys == s.loc.Keys
  {
    var r, t := Step(s, e, max), e.t;
    var moved := s.(loc := s.loc[t := Idle]);
    MoveChangesReaders(s, moved, t, Idle);
    NotifyChangesNothing(moved, r, if e.WUnlock? then ReaderSleepers(s) else e.woken);
    hide Readers, ReaderSleepers, Notify;
    assert e.WUnlock? ==> Claims(s, t);
  }

  lemma StepKeepsInv(s: State, e: Event, max: nat)
    requires Inv(s, max) && Enabled(s, e, max)
    ensures Inv(Step(s, e, max), max)
    ensures Step(s, e, max).loc.Keys == s.loc.Keys
  {
    hide Inv;
    match e {
      case WLock(t) => TryWriteKeepsInv(s, t, max);
      case RLock(t) => TryReadKeepsInv(s, t, max);
      case Wake(t) =>
        if s.loc[t].WantsWrite? { TryWriteKeepsInv(s, t, max); }
        else if s.loc[t].Draining? { DrainKeepsInv(s, t, max); }
        else { TryReadKeepsInv(s, t, max); }
      case WUnlock(_) => ReleaseKeepsInv(s, e, max);
      case RUnlock(_, _) => ReleaseKeepsInv(s, e, max);
    }
  }

  lemma {:induction false} RunKeepsInv(s: State, events: seq<Event>, max: nat)
    requires Inv(s, max) && IsRun(s, events, max)
    ensures Inv(Run(s, events, max), max)
    decreases |events|
  {
    hide Inv, Enabled, Step;
    if events != [] {
      StepKeepsInv(s, events[0], max);
      RunKeepsInv(Step(s, events[0], max), events[1..], max);
    }
  }

  lemma StartHasInv(threads: set<Tid>, max: nat)
    ensures Inv(Start(threads), max)
  {
    assert Readers(Start(threads)) == {};
  }

  /** In every interleaving a writer never overlaps a reader or another writer. */
  lemma WriterExcludes(threads: set<Tid>, events: seq<Event>, max: nat, w: Tid, t: Tid)
    requires IsRun(Start(threads), events, max)
    requires var s := Run(Start(threads), events, max); w in s.loc && t in s.loc && s.loc[w].Writing? && w != t
    ensures var s := Run(Start(threads), events, max); !s.loc[t].Writing? && !s.loc[t].Reading?
  {
    StartHasInv(threads, max);
    RunKeepsInv(Start(threads), events, max);
    var s := Run(Start(threads), events, max);
    assert Claims(s, w);
    assert s.loc[t].Writing? ==> Claims(s, t);
    assert s.loc[t].Reading? ==> t in Readers(s);
  }

  /** Writer w still holds or awaits the latch it claimed, all through the run. */
  predicate StaysClaimed(s: State, events: seq<Event>, max: nat, w: Tid)
    requires IsRun(s, events, max)
    decreases |events|
  {
    Claims(s, w) && (events == [] || StaysClaimed(Step(s, events[0], max), events[1..], max, w))
  }

  /** No reader enters between a writer's claim and its release: the set of readers only shrinks. */
  lemma {:induction false} NoReaderAfterClaim(s: State, events: seq<Event>, max: nat, w: Tid)
    requires Inv(s, max) && IsRun(s, events, max) && StaysClaimed(s, events, max, w)
    ensures Readers(Run(s, events, max)) <= Readers(s)
    decreases |events|
  {
    if events != [] {
      StepKeepsInv(s, events[0], max);
      NoReaderAfterClaim(Step(s, events[0], max), events[1..], max, w);
      assert Readers(Step(s, events[0], max)) <= Readers(s);
    }
  }

  // ---------------------------------------------------------------- wake-ups

  /** No thread sleeps un-notified once its wait condition is false. */
  ghost predicate NoLostWakeup(s: State, max: nat) {
    && (forall t :: t in s.loc && s.loc[t] == WantsWrite(false) ==> s.entered)
    && (forall t :: t in s.loc && s.loc[t] == WantsRead(false) ==> s.entered || s.readers == max)
    && (forall t :: t in s.loc && s.loc[t] == Draining(false) ==> s.readers > 0)
  }

  /** A reader leaves a full latch nobody claimed while two or more sleep for it: one is notified. */
  predicate LeavesCrowd(s: State, e: Event, max: nat) {
    e.RUnlock? && !s.entered && s.readers == max && |ReaderSleepers(s)| >= 2
  }

  lemma OneOfFew(woken: set<Tid>, sleepers: set<Tid>)
    requires OneOf(woken, sleepers) && |sleepers| <= 1
    ensures woken == sleepers
  {
    if sleepers != {} {
      SubsetOfSameSize(woken, sleepers) by {
        SubsetSize(woken, sleepers);
        assert |woken| != 0;
      }
    }
  }

  lemma SubsetSize(a: set<Tid>, b: set<Tid>)
    requires a <= b
    ensures |a| <= |b|
  {
    assert b == a + (b - a);
  }

  lemma OneOfMany(woken: set<Tid>, sleepers: set<Tid>) returns (u: Tid)
    requires OneOf(woken, sleepers) && |sleepers| >= 2
    ensures u in sleepers && u !in woken
  {
    if sleepers <= woken { SubsetSize(sleepers, woken); assert false; }
    u :| u in sleepers && u !in woken;
  }

  /** A step loses a wake-up exactly when it leaves a crowd behind. */
  lemma StepLosesWakeupIff(s: State, e: Event, max: nat)
    requires Inv(s, max) && NoLostWakeup(s, max) && Enabled(s, e, max)
    ensures NoLostWakeup(Step(s, e, max), max) <==> !LeavesCrowd(s, e, max)
  {
    assert forall u :: u in s.loc && s.loc[u].Draining? ==> Claims(s, u);
    if e.RUnlock? {
      if s.entered {
        if s.readers == 1 { LastReaderWakesTheWriter(s, e, max); }
      } else if s.readers == max {
        if |ReaderSleepers(s)| <= 1 {
          OneOfFew(e.woken, ReaderSleepers(s));
        } else {
          var u := OneOfMany(e.woken, ReaderSleepers(s));
          assert Step(s, e, max).loc[u] == s.loc[u];
        }
      }
    }
    hide Inv;
  }

  lemma LastReaderWakesTheWriter(s: State, e: Event, max: nat)
    requires Inv(s, max) && Enabled(s, e, max) && e.RUnlock? && s.entered && s.readers == 1
    ensures forall t :: t in WriterSleepers(s) ==> t in e.woken
  {
    forall t | t in WriterSleepers(s) ensures t in e.woken {
      var u :| u in e.woken;
      assert Claims(s, t) && Claims(s, u);
    }
  }

  predicate NeverLeavesCrowd(s: State, events: seq<Event>, max: nat)
    requires IsRun(s, events, max)
    decreases |events|
  {
    events == [] || (!LeavesCrowd(s, events[0], max) && NeverLeavesCrowd(Step(s, events[0], max), events[1..], max))
  }

  ghost predicate NeverLosesWakeup(s: State, events: seq<Event>, max: nat)
    requires IsRun(s, events, max)
    decreases |events|
  {
    NoLostWakeup(s, max) && (events == [] || NeverLosesWakeup(Step(s, events[0], max), events[1..], max))
  }

  /** In every run, spurious wake-ups included: no wake-up is ever lost if and only if no reader ever
      leaves a full latch with two or more asleep for it. */
  lemma {:induction false} RunLosesNoWakeup(s: State, events: seq<Event>, max: nat)
    requires Inv(s, max) && NoLostWakeup(s, max) && IsRun(s, events, max)
    ensures NeverLosesWakeup(s, events, max) <==> NeverLeavesCrowd(s, events, max)
    ensures NeverLeavesCrowd(s, events, max) ==> NoLostWakeup(Run(s, events, max), max)
    decreases |events|
  {
    hide Inv, Enabled, Step, NoLostWakeup;
    if events != [] {
      StepKeepsInv(s, events[0], max);
      StepLosesWakeupIff(s, events[0], max);
      if !LeavesCrowd(s, events[0], max) { RunLosesNoWakeup(Step(s, events[0], max), events[1..], max); }
      LosesNowOrLater(Step(s, events[0], max), events[1..], max);
    }
  }

  lemma LosesNowOrLater(s: State, events: seq<Event>, max: nat)
    requires IsRun(s, events, max)
    ensures NeverLosesWakeup(s, events, max) ==> NoLostWakeup(s, max)
  {}

  predicate Waits(l: Loc) { l.WantsWrite? || l.WantsRead? || l.Draining? }

  /** So the latch does not hang: while threads wait, some thread holds the latch and will release it,
      or some waiting thread has been notified. */
  lemma NeverHangs(threads: set<Tid>, events: seq<Event>, max: nat, t: Tid)
    requires max > 0 && IsRun(Start(threads), events, max) && NeverLeavesCrowd(Start(threads), events, max)
    requires var s := Run(Start(threads), events, max); t in s.loc && Waits(s.loc[t])
    ensures var s := Run(Start(threads), events, max);
            exists u :: u in s.loc && (s.loc[u].Reading? || s.loc[u].Writing? || (Waits(s.loc[u]) && s.loc[u].notified))
  {
    StartHasInv(threads, max);
    RunKeepsInv(Start(threads), events, max);
    RunLosesNoWakeup(Start(threads), events, max);
    var s := Run(Start(threads), events, max);
    if s.readers > 0 {
      var u :| u in Readers(s);
    } else if s.entered {
      var u :| Claims(s, u);
    }
  }

  /** While readers stay below the maximum there is no crowd to leave. */
  predicate BelowMax(s: State, events: seq<Event>, max: nat)
    requires IsRun(s, events, max)
    decreases |events|
  {
    s.readers < max && (events == [] || BelowMax(Step(s, events[0], max), events[1..], max))
  }

  lemma {:induction false} BelowMaxSuffices(s: State, events: seq<Event>, max: nat)
    requires IsRun(s, events, max) && BelowMax(s, events, max)
    ensures NeverLeavesCrowd(s, events, max)
    decreases |events|
  {
    if events != [] { BelowMaxSuffices(Step(s, events[0], max), events[1..], max); }
  }

  // ---------------------------------------------------------------- a run that hangs

  lemma {:induction false} RunAppends(s: State, events: seq<Event>, e: Event, max: nat)
    requires IsRun(s, events, max) && Enabled(Run(s, events, max), e, max)
    ensures IsRun(s, events + [e], max) && Run(s, events + [e], max) == Step(Run(s, events, max), e, max)
    decreases |events|
  {
    hide Enabled, Step;
    if events == [] {
      assert [] + [e] == [e] && [e][1..] == [];
    } else {
      assert (events + [e])[1..] == events[1..] + [e];
      RunAppends(Step(s, events[0], max), events[1..], e, max);
    }
  }

  /** As many readers as fit, and two more. */
  function Crew(max: nat): set<Tid> { Upto(max + 2) }

  function Upto(n: nat): (ts: set<Tid>)
    ensures forall t: Tid :: t in ts <==> t < n
  {
    if n == 0 then {} else Upto(n - 1) + {n - 1}
  }

  function Filling(max: nat, k: nat): State {
    State(k, false, map t | t in Crew(max) :: if t < k then Reading else Idle)
  }

  /** The last two asleep, the first k readers gone and the first sleeper notified of it. */
  function Leaving(max: nat, k: nat): State
    requires k <= max
  {
    State(max - k, false, map t | t in Crew(max) ::
      if t < k then Idle else if t < max then Reading else if t == max then WantsRead(k > 0) else WantsRead(false))
  }

  lemma {:induction false} FillUp(max: nat, k: nat) returns (events: seq<Event>)
    requires k <= max
    ensures IsRun(Start(Crew(max)), events, max) && Run(Start(Crew(max)), events, max) == Filling(max, k)
    decreases k
  {
    if k == 0 {
      events := [];
      assert Start(Crew(max)).loc == Filling(max, 0).loc;
    } else {
      events := FillUp(max, k - 1);
      var s, e := Filling(max, k - 1), RLock(k - 1);
      assert k - 1 in Crew(max);
      assert Step(s, e, max).loc == Filling(max, k).loc;
      RunAppends(Start(Crew(max)), events, e, max);
      events := events + [e];
    }
  }

  lemma TwoFallAsleep(max: nat)
    ensures Enabled(Filling(max, max), RLock(max), max)
    ensures var s := Step(Filling(max, max), RLock(max), max);
            Enabled(s, RLock(max + 1), max) && Step(s, RLock(max + 1), max) == Leaving(max, 0)
  {
    assert max in Crew(max) && max + 1 in Crew(max);
    assert Step(Step(Filling(max, max), RLock(max), max), RLock(max + 1), max).loc == Leaving(max, 0).loc;
  }

  lemma OneReaderLeaves(max: nat, k: nat)
    requires max >= 2 && k < max
    ensures var e := RUnlock(k, if k == 0 then {max} else {});
            Enabled(Leaving(max, k), e, max) && Step(Leaving(max, k), e, max) == Leaving(max, k + 1)
  {
    var s, e := Leaving(max, k), RUnlock(k, if k == 0 then {max} else {});
    assert k in Crew(max) && max in Crew(max) && max + 1 in Crew(max);
    if k == 0 { assert max in ReaderSleepers(s); }
    assert Enabled(s, e, max);
    assert Step(s, e, max).loc == Leaving(max, k + 1).loc;
  }

  lemma {:induction false} AllLeave(max: nat, k: nat) returns (events: seq<Event>)
    requires max >= 2 && k <= max
    ensures IsRun(Start(Crew(max)), events, max) && Run(Start(Crew(max)), events, max) == Leaving(max, k)
    decreases k
  {
    var start := Start(Crew(max));
    if k == 0 {
      events := FillUp(max, max);
      TwoFallAsleep(max);
      hide Enabled, Step;
      RunAppends(start, events, RLock(max), max);
      RunAppends(start, events + [RLock(max)], RLock(max + 1), max);
      events := events + [RLock(max)] + [RLock(max + 1)];
    } else {
      events := AllLeave(max, k - 1);
      OneReaderLeaves(max, k - 1);
      hide Enabled, Step;
      var e := RUnlock(k - 1, if k - 1 == 0 then {max} else {});
      RunAppends(start, events, e, max);
      events := events + [e];
    }
  }

  /** For any maximum of two or more there is a run from the start in which one thread is left asleep
      for good: the latch is free, nobody else is about, and nobody will notify it. */
  lemma FullLatchCanHang(max: nat) returns (events: seq<Event>)
    requires max >= 2
    ensures IsRun(Start(Crew(max)), events, max)
    ensures var s := Run(Start(Crew(max)), events, max);
            && s.readers == 0 && !s.entered && max + 1 in s.loc && s.loc[max + 1] == WantsRead(false)
            && (forall u :: u in s.loc && u != max + 1 ==> s.loc[u] == Idle)
  {
    var start := Start(Crew(max));
    events := AllLeave(max, max);
    SleeperComesAndGoes(max);
    var s := Step(Leaving(max, max), Wake(max), max);
    hide Step, Enabled, Leaving;
    RunAppends(start, events, Wake(max), max);
    RunAppends(start, events + [Wake(max)], RUnlock(max, {}), max);
    events := events + [Wake(max)] + [RUnlock(max, {})];
  }

  lemma SleeperComesAndGoes(max: nat)
    requires max >= 2
    ensures Enabled(Leaving(max, max), Wake(max), max)
    ensures var s := Step(Leaving(max, max), Wake(max), max);
            && Enabled(s, RUnlock(max, {}), max)
            && var r := Step(s, RUnlock(max, {}), max);
               && r.readers == 0 && !r.entered && max + 1 in r.loc && r.loc[max + 1] == WantsRead(false)
               && (forall u :: u in r.loc && u != max + 1 ==> r.loc[u] == Idle)
  {
    assert max in Crew(max) && max + 1 in Crew(max);
  }

  // ---------------------------------------------------------------- the latch object

  /** The latch's own two fields, and where the threads using it are. Each method is one step. */
  class ReaderWriterLatch {
    const maxReaders: nat
    var readerCount: nat
    var writerEntered: bool
    var loc: map<Tid, Loc>

    ghost function View(): State
      reads this
    {
      State(readerCount, writerEntered, loc)
    }

    /** Up to the return or the next wait: on entry, or woken while waiting to claim the latch. */
    method WLock(t: Tid)
      requires t in loc && (loc[t].Idle? || loc[t].WantsWrite?)
      modifies this
      ensures View() == Step(old(View()), if old(loc)[t].Idle? then Event.WLock(t) else Wake(t), maxReaders)
      ensures writerEntered && readerCount == old(readerCount)
      ensures loc == old(loc)[t := if old(writerEntered) then WantsWrite(false) else if readerCount == 0 then Writing else Draining(false)]
    {
      if writerEntered {
        loc := loc[t := WantsWrite(false)];
        return;
      }
      writerEntered := true;
      WaitForReaders(t);
    }

    /** The second wait loop: entered by a claim, and run again on each wake-up of a draining writer. */
    method WaitForReaders(t: Tid)
      modifies `loc
      ensures View() == Drain(old(View()), t)
      ensures loc == old(loc)[t := if readerCount == 0 then Writing else Draining(false)]
      ensures t in old(loc) && old(loc)[t].Draining? ==> View() == Step(old(View()), Wake(t), maxReaders)
    {
      if readerCount > 0 {
        loc := loc[t := Draining(false)];
      } else {
        loc := loc[t := Writing];
      }
    }

    method RLock(t: Tid)
      requires t in loc && (loc[t].Idle? || loc[t].WantsRead?)
      modifies this
      ensures View() == Step(old(View()), if old(loc)[t].Idle? then Event.RLock(t) else Wake(t), maxReaders)
      ensures loc[t].Reading? <==> !old(writerEntered) && old(readerCount) != maxReaders
      ensures readerCount == old(readerCount) + (if loc[t].Reading? then 1 else 0) && writerEntered == old(writerEntered)
      ensures loc == old(loc)[t := if loc[t].Reading? then Reading else WantsRead(false)]
    {
      if writerEntered || readerCount == maxReaders {
        loc := loc[t := WantsRead(false)];
      } else {
        readerCount := readerCount + 1;
        loc := loc[t := Reading];
      }
    }

    method WUnlock(t: Tid)
      requires Enabled(View(), Event.WUnlock(t), maxReaders)
      modifies this
      ensures View() == Step(old(View()), Event.WUnlock(t), maxReaders)
    {
      var sleepers := set u | u in loc && (loc[u] == WantsWrite(false) || loc[u] == WantsRead(false));
      assert sleepers == ReaderSleepers(View());
      writerEntered := false;
      loc := Notify(loc[t := Idle], sleepers);
    }

    method RUnlock(t: Tid) returns (ghost woken: set<Tid>)
      requires t in loc && loc[t].Reading? && readerCount > 0
      modifies this
      ensures Enabled(old(View()), Event.RUnlock(t, woken), maxReaders)
      ensures View() == Step(old(View()), Event.RUnlock(t, woken), maxReaders)
    {
      ghost var s := View();
      var sleepers: set<Tid> := {};
      readerCount := readerCount - 1;
      if writerEntered {
        if readerCount == 0 {
          sleepers := set u | u in loc && loc[u] == Draining(false);
          assert sleepers == WriterSleepers(s);
        }
      } else {
        if readerCount == maxReaders - 1 {
          sleepers := set u | u in loc && (loc[u] == WantsWrite(false) || loc[u] == WantsRead(false));
          assert sleepers == ReaderSleepers(s);
        }
      }
      var notified: set<Tid> := {};
      if sleepers != {} {
        var u :| u in sleepers;
        notified := {u};
      }
      loc := Notify(loc[t := Idle], notified);
      woken := notified;
    }
  }
}
