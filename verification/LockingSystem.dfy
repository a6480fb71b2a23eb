/** Any number of threads over one `RwSemaphore`, every interleaving of their critical sections.

    A mutex section is one event. `wait_timeout` is split: the section before it leaves the thread
    `Asleep`, a notification or a timeout makes it `Woken`, and `Reacquire` is the section after it.
    A dropped guard leaves its thread `Notifying` between unlocking and `notify_all`. Whether a run
    is to stop (`fatal`) is free at every section. A guard may be dropped by any thread. */
module LockingSystem {
  import opened Wrappers
  import opened Counting
  import opened Locking

  datatype Pc =
    | Running
    | Arriving(exclusive: bool)
    | Asleep(exclusive: bool)
    | Woken(exclusive: bool)
    | Notifying

  /** `shared` and `exclusive` are the holders of the live guards of each mode. */
  datatype State = State(
    h: Holders,
    pc: map<ThreadId, Pc>,
    shared: multiset<ThreadId>,
    exclusive: multiset<ThreadId>)

  datatype Event =
    | Down(t: ThreadId, exclusive: bool)
    | Trylock(t: ThreadId, exclusive: bool)
    | Slow(t: ThreadId, fatal: bool)
    | Timeout(t: ThreadId)
    | Reacquire(t: ThreadId, fatal: bool)
    | Drop(t: ThreadId, holder: ThreadId, exclusive: bool)
    | Notify(t: ThreadId)

  predicate Enabled(s: State, ev: Event) {
    ev.t in s.pc &&
    match ev
    case Down(t, _) => s.pc[t].Running?
    case Trylock(t, _) => s.pc[t].Running?
    case Slow(t, _) => s.pc[t].Arriving?
    case Timeout(t) => s.pc[t].Asleep?
    case Reacquire(t, _) => s.pc[t].Woken?
    case Drop(t, holder, exclusive) =>
      s.pc[t].Running? && holder in (if exclusive then s.exclusive else s.shared)
    case Notify(t) => s.pc[t].Notifying?
  }

  function WakeAll(pc: map<ThreadId, Pc>): map<ThreadId, Pc> {
    map t | t in pc :: if pc[t].Asleep? then Woken(pc[t].exclusive) else pc[t]
  }

  /** `t` comes back from the section with a new guard. */
  function Grant(s: State, h: Holders, t: ThreadId, exclusive: bool): State {
    var s1 := s.(h := h, pc := s.pc[t := Running]);
    if exclusive then s1.(exclusive := s.exclusive + multiset{t})
    else s1.(shared := s.shared + multiset{t})
  }

  function Attempted(s: State, t: ThreadId, exclusive: bool, asked: (Holders, Attempt)): State {
    var h := asked.0;
    match asked.1
    case Took => Grant(s, h, t, exclusive)
    case GaveUp(_, notify) =>
      s.(h := h, pc := (if notify then WakeAll(s.pc) else s.pc)[t := Running])
    case Sleeps => s.(h := h, pc := s.pc[t := Asleep(exclusive)])
  }

  function Apply(s: State, ev: Event): State
    requires Enabled(s, ev)
  {
    match ev
    case Down(t, exclusive) =>
      var (h, r) := Take(s.h, t, exclusive);
      if r.Granted? then Grant(s, h, t, exclusive)
      else if r.Blocked? then s.(pc := s.pc[t := Arriving(exclusive)])
      else s
    case Trylock(t, exclusive) =>
      var (h, held) := if exclusive then TryWrite(s.h, t) else TryRead(s.h, t);
      if held then Grant(s, h, t, exclusive) else s
    case Slow(t, fatal) =>
      var exclusive := s.pc[t].exclusive;
      Attempted(s, t, exclusive, Ask(Queue(s.h, exclusive), t, exclusive, fatal))
    case Timeout(t) => s.(pc := s.pc[t := Woken(s.pc[t].exclusive)])
    case Reacquire(t, fatal) =>
      var exclusive := s.pc[t].exclusive;
      Attempted(s, t, exclusive, Resume(s.h, t, exclusive, fatal))
    case Drop(t, holder, exclusive) =>
      var (h, notify) := Release(s.h, holder, exclusive);
      var s1 := s.(h := h, pc := if notify then s.pc[t := Notifying] else s.pc);
      if exclusive then s1.(exclusive := s.exclusive - multiset{holder})
      else s1.(shared := s.shared - multiset{holder})
    case Notify(t) => s.(pc := WakeAll(s.pc)[t := Running])
  }

  predicate Initial(s: State) {
    && s.h == FREE
    && s.shared == multiset{} && s.exclusive == multiset{}
    && forall t :: t in s.pc ==> s.pc[t].Running?
  }

  /** A run: its states, and the event between each two of them. */
  ghost predicate Run(states: seq<State>, events: seq<Event>) {
    && |states| == |events| + 1
    && Initial(states[0])
    && forall i {:trigger events[i]} :: 0 <= i < |events| ==>
         Enabled(states[i], events[i]) && states[i + 1] == Apply(states[i], events[i])
  }

  // What every reachable state keeps.

  /** The record lists exactly the live guards, never of both modes. */
  ghost predicate Ledger(s: State) {
    && multiset(s.h.readers) == s.shared
    && s.exclusive == (if s.h.writer.Some? then multiset{s.h.writer.value} else multiset{})
    && (s.h.writer.Some? ==> s.h.readers == [])
  }

  ghost function Sleepers(pc: map<ThreadId, Pc>): set<ThreadId> {
    set t | t in pc && (pc[t].Asleep? || pc[t].Woken?)
  }

  ghost function QueuedWriters(pc: map<ThreadId, Pc>): set<ThreadId> {
    set t | t in pc && (pc[t].Asleep? || pc[t].Woken?) && pc[t].exclusive
  }

  /** The counters count the threads inside `wait_timeout` and the writers among them. */
  ghost predicate Counted(s: State) {
    s.h.waiting == |Sleepers(s.pc)| && s.h.writersWaiting == |QueuedWriters(s.pc)|
  }

  predicate Holds(h: Holders, t: ThreadId) { h.writer == Some(t) || t in h.readers }

  predicate Waits(pc: Pc) { pc.Arriving? || pc.Asleep? || pc.Woken? }

  /** No thread on its way through the slow path holds the lock itself. */
  ghost predicate SelfFree(s: State) {
    forall t :: t in s.pc && Waits(s.pc[t]) ==> !Holds(s.h, t)
  }

  /** Every unnotified sleeper is still blocked, unless a release still owes its `notify_all`. */
  ghost predicate NoLostWakeup(s: State) {
    || (exists n :: n in s.pc && s.pc[n].Notifying?)
    || (forall t :: t in s.pc && s.pc[t].Asleep? ==> Take(s.h, t, s.pc[t].exclusive).1.Blocked?)
  }

  ghost predicate Inv(s: State) {
    Ledger(s) && Counted(s) && SelfFree(s) && NoLostWakeup(s)
  }

  lemma InitialInv(s: State)
    requires Initial(s)
    ensures Inv(s)
  {
  }

  lemma WakeAllKeepsCounts(pc: map<ThreadId, Pc>)
    ensures Sleepers(WakeAll(pc)) == Sleepers(pc)
    ensures QueuedWriters(WakeAll(pc)) == QueuedWriters(pc)
  {
  }

  // The moves a thread can make, each keeping the invariant.

  /** What `t`, as it stands, adds to the two counters. */
  function Weight(pc: Pc): (int, int) {
    if pc.Asleep? || pc.Woken? then (1, Bit(pc.exclusive)) else (0, 0)
  }

  /** `h` is `s.h` with `t`'s share of the counters replaced by that of `to`. */
  predicate Reweighed(s: State, h: Holders, t: ThreadId, to: Pc)
    requires t in s.pc
  {
    && h.waiting == s.h.waiting - Weight(s.pc[t]).0 + Weight(to).0
    && h.writersWaiting == s.h.writersWaiting - Weight(s.pc[t]).1 + Weight(to).1
  }

  lemma CountMove(s: State, s': State, t: ThreadId)
    requires Counted(s) && t in s.pc && t in s'.pc
    requires s'.pc == s.pc[t := s'.pc[t]] || s'.pc == WakeAll(s.pc)[t := s'.pc[t]]
    requires Reweighed(s, s'.h, t, s'.pc[t])
    ensures Counted(s')
  {
    WakeAllKeepsCounts(s.pc);
    assert forall u :: u in s.pc && u != t ==>
        (u in Sleepers(s.pc) <==> u in Sleepers(s'.pc)) &&
        (u in QueuedWriters(s.pc) <==> u in QueuedWriters(s'.pc));
    CountOne(Sleepers(s.pc), Sleepers(s'.pc), t);
    CountOne(QueuedWriters(s.pc), QueuedWriters(s'.pc), t);
  }

  lemma GrantInv(s: State, h: Holders, t: ThreadId, exclusive: bool)
    requires Inv(s) && t in s.pc && !s.pc[t].Notifying?
    requires s.h.writer.None? && Reweighed(s, h, t, Running)
    requires if exclusive then s.h.readers == [] && h.readers == [] && h.writer == Some(t)
             else h.writer.None? && h.readers == s.h.readers + [t] && Weight(s.pc[t]).1 == 0
    ensures Inv(Grant(s, h, t, exclusive))
  {
    CountMove(s, Grant(s, h, t, exclusive), t);
    var s' := Grant(s, h, t, exclusive);
    if n :| n in s.pc && s.pc[n].Notifying? {
      assert s'.pc[n].Notifying?;
    }
  }

  /** Nobody counted is nobody asleep. */
  lemma NoneAsleep(s: State)
    requires Counted(s) && s.h.waiting == 0
    ensures NoLostWakeup(s)
  {
    assert Sleepers(s.pc) == {};
    assert forall u :: u in s.pc && s.pc[u].Asleep? ==> u in Sleepers(s.pc);
  }

  /** The holders as they were, and nobody new on the way through the slow path. */
  lemma SameHolders(s: State, s': State)
    requires Ledger(s) && SelfFree(s)
    requires s'.h.writer == s.h.writer && s'.h.readers == s.h.readers
    requires s'.shared == s.shared && s'.exclusive == s.exclusive
    requires forall u :: u in s'.pc && Waits(s'.pc[u]) ==> u in s.pc && Waits(s.pc[u])
    ensures Ledger(s') && SelfFree(s')
  {
  }

  lemma GiveUpInv(s: State, h: Holders, t: ThreadId, error: DownError)
    requires Inv(s) && t in s.pc && Waits(s.pc[t])
    requires h.writer == s.h.writer && h.readers == s.h.readers && Reweighed(s, h, t, Running)
    ensures Inv(Attempted(s, t, s.pc[t].exclusive, (h, GaveUp(error, h.waiting > 0))))
  {
    var s' := Attempted(s, t, s.pc[t].exclusive, (h, GaveUp(error, h.waiting > 0)));
    SameHolders(s, s');
    CountMove(s, s', t);
    assert NoLostWakeup(s') by {
      if h.waiting > 0 {
        assert forall u :: u in s'.pc ==> !s'.pc[u].Asleep?;
      } else {
        assert s'.h.waiting == 0 by { NotNegative(s'); }
        NoneAsleep(s');
      }
    }
  }

  lemma NotNegative(s: State)
    requires Counted(s)
    ensures s.h.waiting >= 0
  {
  }

  /** More writers in the queue let nobody in. */
  lemma StillBlocked(h: Holders, h': Holders, t: ThreadId, exclusive: bool)
    requires h'.writer == h.writer && h'.readers == h.readers && h'.writersWaiting >= h.writersWaiting
    requires Take(h, t, exclusive).1.Blocked?
    ensures Take(h', t, exclusive).1.Blocked?
  {
  }

  lemma SleepersBlocked(s: State, s': State, t: ThreadId)
    requires NoLostWakeup(s) && t in s.pc && Waits(s.pc[t]) && s'.pc == s.pc[t := Asleep(s.pc[t].exclusive)]
    requires s'.h.writer == s.h.writer && s'.h.readers == s.h.readers && s'.h.writersWaiting >= s.h.writersWaiting
    requires Take(s'.h, t, s.pc[t].exclusive).1.Blocked?
    ensures NoLostWakeup(s')
  {
    if n :| n in s.pc && s.pc[n].Notifying? {
      assert s'.pc[n].Notifying?;
    } else {
      forall u | u in s'.pc && s'.pc[u].Asleep? ensures Take(s'.h, u, s'.pc[u].exclusive).1.Blocked? {
        if u != t {
          StillBlocked(s.h, s'.h, u, s.pc[u].exclusive);
        }
      }
    }
  }

  lemma SleepInv(s: State, h: Holders, t: ThreadId)
    requires Inv(s) && t in s.pc && Waits(s.pc[t])
    requires h.writer == s.h.writer && h.readers == s.h.readers
    requires Reweighed(s, h, t, Asleep(s.pc[t].exclusive))
    requires Take(h, t, s.pc[t].exclusive).1.Blocked?
    ensures Inv(Attempted(s, t, s.pc[t].exclusive, (h, Sleeps)))
  {
    var s' := Attempted(s, t, s.pc[t].exclusive, (h, Sleeps));
    SameHolders(s, s');
    CountMove(s, s', t);
    SleepersBlocked(s, s', t);
  }

  lemma AttemptInv(s: State, hq: Holders, t: ThreadId, fatal: bool)
    requires Inv(s) && t in s.pc && Waits(s.pc[t])
    requires hq.writer == s.h.writer && hq.readers == s.h.readers
    requires hq.waiting == s.h.waiting - Weight(s.pc[t]).0
    requires hq.writersWaiting == s.h.writersWaiting - Weight(s.pc[t]).1 + Bit(s.pc[t].exclusive)
    ensures var asked := Ask(hq, t, s.pc[t].exclusive, fatal);
            Inv(Attempted(s, t, s.pc[t].exclusive, asked)) && !(asked.1.GaveUp? && asked.1.error.Deadlock?)
  {
    var (h, a) := Ask(hq, t, s.pc[t].exclusive, fatal);
    match a {
      case Took => GrantInv(s, h, t, s.pc[t].exclusive);
      case GaveUp(error, notify) => GiveUpInv(s, h, t, error);
      case Sleeps => SleepInv(s, h, t);
    }
  }

  lemma DropLedger(s: State, ev: Event)
    requires Ledger(s) && ev.Drop? && Enabled(s, ev)
    ensures Ledger(Apply(s, ev))
    ensures forall u :: Holds(Apply(s, ev).h, u) ==> Holds(s.h, u)
  {
    var s' := Apply(s, ev);
    if !ev.exclusive {
      ReleaseShared(s.h, ev.holder);
      assert multiset(s'.h.readers) == s'.shared;
      assert forall u :: u in s'.h.readers ==> u in multiset(s'.h.readers) && u in multiset(s.h.readers);
    }
  }

  lemma DropInv(s: State, ev: Event)
    requires Inv(s) && ev.Drop? && Enabled(s, ev)
    ensures Inv(Apply(s, ev))
  {
    var s' := Apply(s, ev);
    assert s'.h.waiting == s.h.waiting && s'.h.writersWaiting == s.h.writersWaiting;
    assert Ledger(s') && SelfFree(s') by { DropLedger(s, ev); }
    assert Counted(s') by {
      assert s.pc[ev.t := Running] == s.pc;
      CountMove(s, s', ev.t);
    }
    assert NoLostWakeup(s') by {
      NotNegative(s);
      if s.h.waiting == 0 {
        NoneAsleep(s');
      } else {
        assert s'.pc[ev.t].Notifying?;
      }
    }
  }

  lemma InvStep(s: State, ev: Event)
    requires Inv(s) && Enabled(s, ev)
    ensures Inv(Apply(s, ev))
  {
    match ev {
      case Down(t, exclusive) =>
        var (h, r) := Take(s.h, t, exclusive);
        if r.Granted? {
          GrantInv(s, h, t, exclusive);
        } else if r.Blocked? {
          ArriveInv(s, t, exclusive);
        }
      case Trylock(t, exclusive) =>
        var (h, held) := if exclusive then TryWrite(s.h, t) else TryRead(s.h, t);
        if held {
          GrantInv(s, h, t, exclusive);
        }
      case Slow(t, fatal) => AttemptInv(s, Queue(s.h, s.pc[t].exclusive), t, fatal);
      case Timeout(t) => WakeInv(s, ev);
      case Reacquire(t, fatal) => AttemptInv(s, s.h.(waiting := s.h.waiting - 1), t, fatal);
      case Drop(_, _, _) => DropInv(s, ev);
      case Notify(t) => WakeInv(s, ev);
    }
  }

  lemma ArriveInv(s: State, t: ThreadId, exclusive: bool)
    requires Inv(s) && t in s.pc && s.pc[t].Running?
    requires Take(s.h, t, exclusive).1.Blocked?
    ensures Inv(s.(pc := s.pc[t := Arriving(exclusive)]))
  {
    var s' := s.(pc := s.pc[t := Arriving(exclusive)]);
    CountMove(s, s', t);
    if n :| n in s.pc && s.pc[n].Notifying? {
      assert s'.pc[n].Notifying?;
    }
  }

  lemma WakeInv(s: State, ev: Event)
    requires Inv(s) && Enabled(s, ev) && (ev.Timeout? || ev.Notify?)
    ensures Inv(Apply(s, ev))
  {
    var s' := Apply(s, ev);
    CountMove(s, s', ev.t);
    if n :| ev.Timeout? && n in s.pc && s.pc[n].Notifying? {
      assert s'.pc[n].Notifying?;
    }
  }

  // Over whole runs.

  lemma {:induction false} Reachable(states: seq<State>, events: seq<Event>, i: nat)
    requires Run(states, events) && i < |states|
    ensures Inv(states[i])
  {
    if i == 0 {
      InitialInv(states[0]);
    } else {
      Reachable(states, events, i - 1);
      InvStep(states[i - 1], events[i - 1]);
    }
  }

  /** Whom the lock answers how, in every reachable state, told by the live guards and the queue alone:
      Deadlock exactly to a thread whose own hold blocks it, shared again to one that has it shared,
      and otherwise a hold exactly when nothing stands in its way. A holder is never left to wait. */
  lemma AnsweredExactly(states: seq<State>, events: seq<Event>, i: nat, t: ThreadId, exclusive: bool)
    requires Run(states, events) && i < |states|
    ensures var s := states[i]; var r := Take(s.h, t, exclusive).1;
            && (r.Refused? <==> t in s.exclusive || (exclusive && t in s.shared))
            && (r.Granted? <==>
                  && s.exclusive == multiset{}
                  && (if exclusive then s.shared == multiset{} else QueuedWriters(s.pc) == {} || t in s.shared))
            && (r.Blocked? ==> t !in s.shared + s.exclusive)
  {
    Reachable(states, events, i);
    var s := states[i];
    assert forall u :: u in s.h.readers <==> u in s.shared;
    assert |s.h.readers| == |s.shared|;
  }

  /** The trylocks take what nobody holds or, for a shared hold, waits to hold exclusive. */
  lemma TrylockExactly(states: seq<State>, events: seq<Event>, i: nat, t: ThreadId)
    requires Run(states, events) && i < |states|
    ensures var s := states[i];
            && (TryRead(s.h, t).1 <==> s.exclusive == multiset{} && QueuedWriters(s.pc) == {})
            && (TryWrite(s.h, t).1 <==> s.exclusive + s.shared == multiset{})
  {
    Reachable(states, events, i);
    assert |states[i].h.readers| == |states[i].shared|;
  }

  /** The slow path's Deadlock arm never runs. */
  lemma SlowpathNeverDeadlocks(states: seq<State>, events: seq<Event>, i: nat)
    requires Run(states, events) && i < |events| && (events[i].Slow? || events[i].Reacquire?)
    ensures var s, t := states[i], events[i].t;
            var a := if events[i].Slow? then Ask(Queue(s.h, s.pc[t].exclusive), t, s.pc[t].exclusive, events[i].fatal).1
                     else Resume(s.h, t, s.pc[t].exclusive, events[i].fatal).1;
            a.GaveUp? ==> a.error == Interrupted
  {
    Reachable(states, events, i);
    assert Waits(states[i].pc[events[i].t]);
  }

  // What each event comes to, told by the live guards and the queued writers alone.

  /** Nothing stands in `t`'s way: no exclusive guard is live and, for an exclusive hold, none at all;
      for a shared one no writer is queued, unless `t` has the lock shared already. */
  ghost predicate Free(s: State, t: ThreadId, exclusive: bool) {
    && s.exclusive == multiset{}
    && if exclusive then s.shared == multiset{} else QueuedWriters(s.pc) == {} || t in s.shared
  }

  /** `t` has come back with one more guard, and no other guard or thread is touched. */
  ghost predicate Gains(s: State, s': State, t: ThreadId, exclusive: bool) {
    && s'.pc == s.pc[t := Running]
    && s'.shared == s.shared + (if exclusive then multiset{} else multiset{t})
    && s'.exclusive == s.exclusive + (if exclusive then multiset{t} else multiset{})
  }

  ghost predicate SameGuards(s: State, s': State) { s'.shared == s.shared && s'.exclusive == s.exclusive }

  lemma FreeIsGranted(s: State, t: ThreadId, exclusive: bool, h: Holders)
    requires Inv(s) && h.writer == s.h.writer && h.readers == s.h.readers
    requires exclusive || h.writersWaiting == s.h.writersWaiting
    ensures Take(h, t, exclusive).1.Granted? <==> Free(s, t, exclusive)
    ensures Take(h, t, exclusive).1.Refused? <==> t in s.exclusive || (exclusive && t in s.shared)
  {
    assert forall u :: u in s.h.readers <==> u in s.shared;
    assert |s.h.readers| == |s.shared|;
  }

  /** The first ask: the hold where nothing stands in the way, Deadlock and nothing changed exactly for
      a thread whose own hold does, and otherwise on to the slow path with every guard as it was. */
  lemma DownExactly(states: seq<State>, events: seq<Event>, i: nat)
    requires Run(states, events) && i < |events| && events[i].Down?
    ensures var s, s', t, e := states[i], states[i + 1], events[i].t, events[i].exclusive;
            if Free(s, t, e) then Gains(s, s', t, e)
            else if t in s.exclusive || (e && t in s.shared) then s' == s
            else SameGuards(s, s') && s'.pc == s.pc[t := Arriving(e)]
  {
    var s := states[i];
    Reachable(states, events, i);
    FreeIsGranted(s, events[i].t, events[i].exclusive, s.h);
  }

  /** A trylock: the hold where nobody holds against it or, for a shared one, waits to; else nothing. */
  lemma TrylockTakesExactly(states: seq<State>, events: seq<Event>, i: nat)
    requires Run(states, events) && i < |events| && events[i].Trylock?
    ensures var s, s', t, e := states[i], states[i + 1], events[i].t, events[i].exclusive;
            if s.exclusive == multiset{} && (if e then s.shared == multiset{} else QueuedWriters(s.pc) == {})
            then Gains(s, s', t, e) else s' == s
  {
    TrylockExactly(states, events, i, events[i].t);
    assert states[i].exclusive == multiset{} && states[i].shared == multiset{} <==>
           states[i].exclusive + states[i].shared == multiset{};
  }

  /** What one pass of the slow path leaves: the hold, or the guards as they were with `t` asleep, or
      gone with everyone else who slept awake. */
  ghost predicate Passes(s: State, s': State, t: ThreadId, fatal: bool) {
    t in s.pc && Waits(s.pc[t]) &&
    var e := s.pc[t].exclusive;
    if Free(s, t, e) then Gains(s, s', t, e)
    else
      && SameGuards(s, s')
      && if !fatal then s'.pc == s.pc[t := Asleep(e)]
         else s'.pc == WakeAll(s.pc)[t := Running]
  }

  lemma OthersAwake(pc: map<ThreadId, Pc>, t: ThreadId)
    requires Sleepers(pc) - {t} == {}
    ensures WakeAll(pc)[t := Running] == pc[t := Running]
  {
    assert forall u :: u in pc && u != t && pc[u].Asleep? ==> u in Sleepers(pc) - {t};
  }

  lemma AskEnds(h: Holders, t: ThreadId, exclusive: bool, fatal: bool)
    requires !Take(h, t, exclusive).1.Refused?
    ensures Ask(h, t, exclusive, fatal).1 ==
            if Take(h, t, exclusive).1.Granted? then Took
            else if fatal then GaveUp(Interrupted, h.waiting > 0)
            else Sleeps
  {
  }

  lemma AttemptPasses(s: State, t: ThreadId, fatal: bool, asked: (Holders, Attempt))
    requires t in s.pc && Waits(s.pc[t])
    requires asked.1 == if Free(s, t, s.pc[t].exclusive) then Took
                        else if fatal then GaveUp(Interrupted, Sleepers(s.pc) - {t} != {})
                        else Sleeps
    ensures Passes(s, Attempted(s, t, s.pc[t].exclusive, asked), t, fatal)
  {
    if Sleepers(s.pc) - {t} == {} {
      OthersAwake(s.pc, t);
    }
  }

  lemma AskPasses(s: State, hq: Holders, t: ThreadId, fatal: bool)
    requires Inv(s) && t in s.pc && Waits(s.pc[t]) && hq.writer == s.h.writer && hq.readers == s.h.readers
    requires s.pc[t].exclusive || hq.writersWaiting == s.h.writersWaiting
    requires hq.waiting == |Sleepers(s.pc) - {t}|
    ensures Passes(s, Attempted(s, t, s.pc[t].exclusive, Ask(hq, t, s.pc[t].exclusive, fatal)), t, fatal)
  {
    var e := s.pc[t].exclusive;
    FreeIsGranted(s, t, e, hq);
    assert !Take(hq, t, e).1.Refused? by { assert !Holds(s.h, t); }
    AskEnds(hq, t, e, fatal);
    AttemptPasses(s, t, fatal, Ask(hq, t, e, fatal));
  }

  /** A waiter whose run goes on never leaves without the hold: it has the hold at once where nothing
      stands in the way, and else it sleeps with every guard as it was. One whose run is to stop never
      sleeps: it too takes the hold where it can, and else leaves every guard as it was. */
  lemma WaiterExactly(states: seq<State>, events: seq<Event>, i: nat)
    requires Run(states, events) && i < |events| && (events[i].Slow? || events[i].Reacquire?)
    ensures Passes(states[i], states[i + 1], events[i].t, events[i].fatal)
  {
    var s, t := states[i], events[i].t;
    Reachable(states, events, i);
    CountOne(Sleepers(s.pc), Sleepers(s.pc) - {t}, t);
    if events[i].Slow? {
      AskPasses(s, Queue(s.h, s.pc[t].exclusive), t, events[i].fatal);
    } else {
      AskPasses(s, s.h.(waiting := s.h.waiting - 1), t, events[i].fatal);
    }
  }

  /** A waiter whose run is to stop leaves at its next wake: with the hold, or Interrupted with every
      hold as it was and the counters counting only the others. */
  lemma StoppedWaiterLeaves(states: seq<State>, events: seq<Event>, i: nat)
    requires Run(states, events) && i < |events|
    requires (events[i].Slow? || events[i].Reacquire?) && events[i].fatal
    ensures var s, s', t := states[i], states[i + 1], events[i].t;
            && s'.pc[t].Running?
            && s'.h.waiting == |Sleepers(s.pc) - {t}|
            && s'.h.writersWaiting == |QueuedWriters(s.pc) - {t}|
            && if Free(s, t, s.pc[t].exclusive) then Gains(s, s', t, s.pc[t].exclusive) else SameGuards(s, s')
  {
    var s, s', t := states[i], states[i + 1], events[i].t;
    WaiterExactly(states, events, i);
    OthersSleep(s, s', t);
    assert Counted(s') by { Reachable(states, events, i + 1); }
  }

  lemma OthersSleep(s: State, s': State, t: ThreadId)
    requires t in s.pc && s'.pc in {s.pc[t := Running], WakeAll(s.pc)[t := Running]}
    ensures Sleepers(s'.pc) == Sleepers(s.pc) - {t}
    ensures QueuedWriters(s'.pc) == QueuedWriters(s.pc) - {t}
  {
  }

  /** A drop ends exactly the one guard, and its thread goes on to notify exactly when someone waits. */
  lemma DropExactly(states: seq<State>, events: seq<Event>, i: nat)
    requires Run(states, events) && i < |events| && events[i].Drop?
    ensures var s, s', holder, e := states[i], states[i + 1], events[i].holder, events[i].exclusive;
            && s'.shared == s.shared - (if e then multiset{} else multiset{holder})
            && s'.exclusive == s.exclusive - (if e then multiset{holder} else multiset{})
            && s'.pc == if Sleepers(s.pc) == {} then s.pc else s.pc[events[i].t := Notifying]
  {
    assert Counted(states[i]) by { Reachable(states, events, i); }
    ReleaseOwes(states[i].h, events[i].holder, events[i].exclusive);
  }

  lemma ReleaseOwes(h: Holders, holder: ThreadId, exclusive: bool)
    ensures Release(h, holder, exclusive).1 <==> h.waiting > 0
  {
  }

  /** A notification wakes everyone asleep, and a timeout only its own thread. */
  lemma WakesExactly(states: seq<State>, events: seq<Event>, i: nat, u: ThreadId)
    requires Run(states, events) && i < |events| && (events[i].Notify? || events[i].Timeout?) && u in states[i].pc
    ensures var s, s', t := states[i], states[i + 1], events[i].t;
            && SameGuards(s, s') && u in s'.pc
            && s'.pc[u] ==
                 if s.pc[u].Asleep? && (u == t || events[i].Notify?) then Woken(s.pc[u].exclusive)
                 else if u == t then Running
                 else s.pc[u]
  {
  }

  /** Every thread in the readers' list `after` was in it before. */
  predicate NoNewReader(before: Holders, after: Holders) {
    forall u :: u in after.readers ==> u in before.readers
  }

  lemma TakeReaders(h: Holders, t: ThreadId, exclusive: bool)
    requires h.writersWaiting > 0
    ensures NoNewReader(h, Take(h, t, exclusive).0)
  {
  }

  lemma AskReaders(h: Holders, t: ThreadId, exclusive: bool, fatal: bool)
    requires h.writersWaiting > 0
    ensures NoNewReader(h, Ask(h, t, exclusive, fatal).0)
  {
    TakeReaders(h, t, exclusive);
  }

  lemma ReleaseReaders(h: Holders, holder: ThreadId, exclusive: bool)
    ensures NoNewReader(h, Release(h, holder, exclusive).0)
  {
    if !exclusive {
      ReleaseShared(h, holder);
      var after := Release(h, holder, false).0;
      assert forall u :: u in after.readers ==> u in multiset(after.readers) && u in multiset(h.readers);
    }
  }

  lemma AttemptedHolders(s: State, t: ThreadId, exclusive: bool, asked: (Holders, Attempt))
    ensures Attempted(s, t, exclusive, asked).h == asked.0
  {
  }

  lemma NoFreshReader(s: State, ev: Event)
    requires Enabled(s, ev) && s.h.writersWaiting > 0
    ensures NoNewReader(s.h, Apply(s, ev).h)
  {
    match ev {
      case Down(t, e) => TakeReaders(s.h, t, e);
      case Slow(t, fatal) =>
        var e := s.pc[t].exclusive;
        AttemptedHolders(s, t, e, Ask(Queue(s.h, e), t, e, fatal));
        AskReaders(Queue(s.h, e), t, e, fatal);
      case Reacquire(t, fatal) =>
        var e := s.pc[t].exclusive;
        AttemptedHolders(s, t, e, Resume(s.h, t, e, fatal));
        AskReaders(s.h.(waiting := s.h.waiting - 1), t, e, fatal);
      case Drop(_, holder, e) => ReleaseReaders(s.h, holder, e);
      case _ =>
    }
  }

  /** While a writer stays queued, no thread joins the readers, by either way of asking. */
  lemma {:induction false} WritersNotOvertaken(states: seq<State>, events: seq<Event>, i: nat, j: nat)
    requires Run(states, events) && i <= j < |states|
    requires forall k :: i <= k < j ==> states[k].h.writersWaiting > 0
    ensures NoNewReader(states[i].h, states[j].h)
    decreases j
  {
    if i < j {
      WritersNotOvertaken(states, events, i, j - 1);
      NoFreshReader(states[j - 1], events[j - 1]);
    }
  }

  /** Nobody sleeps on a lock that nothing will move again: some guard is live, some release still
      owes its notification, or some thread is awake to take the lock now. */
  lemma NobodyStranded(states: seq<State>, events: seq<Event>, i: nat, t: ThreadId)
    requires Run(states, events) && i < |states|
    requires t in states[i].pc && states[i].pc[t].Asleep?
    ensures var s := states[i];
            || s.shared + s.exclusive != multiset{}
            || (exists n :: n in s.pc && s.pc[n].Notifying?)
            || (exists w :: w in s.pc && s.pc[w].Woken? && Take(s.h, w, s.pc[w].exclusive).1.Granted?)
  {
    Reachable(states, events, i);
    var s := states[i];
    if s.shared + s.exclusive == multiset{} && !(exists n :: n in s.pc && s.pc[n].Notifying?) {
      assert |s.h.readers| == |multiset(s.h.readers)| == 0;
      assert Take(s.h, t, s.pc[t].exclusive).1.Blocked?;
      assert QueuedWriters(s.pc) != {};
      var w :| w in QueuedWriters(s.pc);
      assert Take(s.h, w, s.pc[w].exclusive).1.Granted?;
    }
  }
}
