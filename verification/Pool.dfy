/** The Sandbox pool of `lib/kobako/pool.rb`: bounded checkout with construction outside the lock.

    The class `Pool` runs each `synchronize` block on the pool's own fields. `PoolSystem` interleaves
    those blocks over any number of threads. */
module Pool {
  import opened Wrappers

  type Sandbox(==, !new) = nat

  /** How one `claim_or_wait` ends: `[:idle, s]`, `[:build, nil]`, PoolTimeoutError, or a wait. */
  datatype Claim = Idle(sandbox: Sandbox) | Build | TimedOut | Wait

  datatype Slots = Slots(slots: nat, idle: seq<Sandbox>, constructed: int)

  function ClaimOrWait(p: Slots, deadline: Option<int>, now: int): (Slots, Claim) {
    if p.idle != [] then
      var last := |p.idle| - 1;
      (p.(idle := p.idle[..last]), Idle(p.idle[last]))
    else if p.constructed < p.slots then (p.(constructed := p.constructed + 1), Build)
    else if deadline.Some? && deadline.value - now <= 0 then (p, TimedOut)
    else (p, Wait)
  }

  class Pool {
    const slots: nat
    var idle: seq<Sandbox>
    var constructed: int

    ghost function View(): Slots
      reads this
    {
      Slots(slots, idle, constructed)
    }

    constructor (slots: nat)
      ensures View() == Slots(slots, [], 0)
    {
      this.slots, idle, constructed := slots, [], 0;
    }

    method ClaimSlot(deadline: Option<int>, now: int) returns (claim: Claim)
      modifies this
      ensures (View(), claim) == ClaimOrWait(old(View()), deadline, now)
    {
      if idle != [] {
        claim := Idle(idle[|idle| - 1]);
        idle := idle[..|idle| - 1];
      } else if constructed < slots {
        constructed := constructed + 1;
        claim := Build;
      } else {
        claim := AwaitSlot(deadline, now);
      }
    }

    method AwaitSlot(deadline: Option<int>, now: int) returns (claim: Claim)
      ensures claim == if deadline.Some? && deadline.value <= now then TimedOut else Wait
    {
      match deadline {
        case Some(at) =>
          var remaining := at - now;
          return if remaining <= 0 then TimedOut else Wait;
        case None => return Wait;
      }
    }

    /** Both end in a signal, which is what `PoolSystem` lets wake a sleeper. */
    method Checkin(sandbox: Sandbox) returns (signals: bool)
      modifies this
      ensures View() == old(View()).(idle := old(idle) + [sandbox]) && signals
    {
      idle := idle + [sandbox];
      signals := true;
    }

    method ReleaseCapacity() returns (signals: bool)
      modifies this
      ensures View() == old(View()).(constructed := old(constructed) - 1) && signals
    {
      constructed := constructed - 1;
      signals := true;
    }
  }
}

/** Any number of threads over one pool.

    A thread is `Claiming` on its way into `claim_or_wait` for the first time, `Asleep` in the
    condition variable, and `Awakened` from the moment a signal, a timeout or a spurious wake ends
    its wait until it claims again. `signal` wakes one thread that is asleep, any one of them. */
module PoolSystem {
  import opened Wrappers
  import opened Counting
  import opened Pool

  type ThreadId = nat

  datatype Pc =
    | Outside
    | Claiming(deadline: Option<int>)
    | Asleep(deadline: Option<int>)
    | Awakened(deadline: Option<int>)
    | Building
    | Holding(sandbox: Sandbox)

  /** `built` is every Sandbox a construction has completed. */
  datatype State = State(p: Slots, timeout: Option<int>, now: int, pc: map<ThreadId, Pc>, built: set<Sandbox>)

  datatype Event =
    | Arrive(t: ThreadId)
    | ClaimEvent(t: ThreadId)
    | WakeUp(t: ThreadId)
    | Built(t: ThreadId, sandbox: Sandbox)
    | BuildFailed(t: ThreadId, wakes: Option<ThreadId>)
    | CheckedIn(t: ThreadId, wakes: Option<ThreadId>)
    | Tick(t: ThreadId, elapsed: nat)

  ghost function Sleepers(pc: map<ThreadId, Pc>): set<ThreadId> { set t | t in pc && pc[t].Asleep? }
  ghost function Awake(pc: map<ThreadId, Pc>): set<ThreadId> { set t | t in pc && pc[t].Awakened? }
  ghost function Builders(pc: map<ThreadId, Pc>): set<ThreadId> { set t | t in pc && pc[t].Building? }
  ghost function Keepers(pc: map<ThreadId, Pc>): set<ThreadId> { set t | t in pc && pc[t].Holding? }

  /** Whom a `signal` may wake: a sleeper if there is one, else nobody. */
  ghost predicate Wakeable(pc: map<ThreadId, Pc>, wakes: Option<ThreadId>) {
    if wakes.Some? then wakes.value in Sleepers(pc) else Sleepers(pc) == {}
  }

  ghost predicate Enabled(s: State, ev: Event) {
    ev.t in s.pc &&
    match ev
    case Arrive(t) => s.pc[t].Outside?
    case ClaimEvent(t) => s.pc[t].Claiming? || s.pc[t].Awakened?
    case WakeUp(t) => s.pc[t].Asleep?
    case Built(t, sandbox) => s.pc[t].Building? && sandbox !in s.built
    case BuildFailed(t, wakes) => s.pc[t].Building? && Wakeable(s.pc, wakes)
    case CheckedIn(t, wakes) => s.pc[t].Holding? && Wakeable(s.pc, wakes)
    case Tick(_, _) => true
  }

  function Signal(pc: map<ThreadId, Pc>, wakes: Option<ThreadId>): map<ThreadId, Pc> {
    if wakes.Some? && wakes.value in pc && pc[wakes.value].Asleep? then
      pc[wakes.value := Awakened(pc[wakes.value].deadline)]
    else pc
  }

  function Claimed(c: Claim, deadline: Option<int>): Pc {
    match c
    case Idle(sandbox) => Holding(sandbox)
    case Build => Building
    case TimedOut => Outside
    case Wait => Asleep(deadline)
  }

  ghost function Apply(s: State, ev: Event): State
    requires Enabled(s, ev)
  {
    match ev
    case Arrive(t) =>
      s.(pc := s.pc[t := Claiming(if s.timeout.Some? then Some(s.now + s.timeout.value) else None)])
    case ClaimEvent(t) =>
      var deadline := s.pc[t].deadline;
      var (p, c) := ClaimOrWait(s.p, deadline, s.now);
      s.(p := p, pc := s.pc[t := Claimed(c, deadline)])
    case WakeUp(t) => s.(pc := s.pc[t := Awakened(s.pc[t].deadline)])
    case Built(t, sandbox) => s.(pc := s.pc[t := Holding(sandbox)], built := s.built + {sandbox})
    case BuildFailed(t, wakes) =>
      s.(p := s.p.(constructed := s.p.constructed - 1), pc := Signal(s.pc, wakes)[t := Outside])
    case CheckedIn(t, wakes) =>
      s.(p := s.p.(idle := s.p.idle + [s.pc[t].sandbox]), pc := Signal(s.pc, wakes)[t := Outside])
    case Tick(_, elapsed) => s.(now := s.now + elapsed)
  }

  ghost predicate Initial(s: State) {
    && s.p.idle == [] && s.p.constructed == 0 && s.built == {}
    && forall t :: t in s.pc ==> s.pc[t].Outside?
  }

  ghost predicate Run(states: seq<State>, events: seq<Event>) {
    && |states| == |events| + 1
    && Initial(states[0])
    && forall i {:trigger events[i]} :: 0 <= i < |events| ==>
         Enabled(states[i], events[i]) && states[i + 1] == Apply(states[i], events[i])
  }

  // What every reachable state keeps.

  /** Every reserved slot is idle, being built, or held; none is reserved past the bound. */
  ghost predicate Conserved(s: State) {
    && s.p.constructed == |s.p.idle| + |Builders(s.pc)| + |Keepers(s.pc)|
    && s.p.constructed <= s.p.slots
  }

  predicate Keeps(pc: map<ThreadId, Pc>, t: ThreadId, x: Sandbox) { t in pc && pc[t] == Holding(x) }

  ghost predicate Held(s: State, sandbox: Sandbox) {
    exists t :: Keeps(s.pc, t, sandbox)
  }

  /** No Sandbox is idle twice, held twice or both, and none built is ever lost. */
  ghost predicate Exclusive(s: State) {
    && (forall i, j :: 0 <= i < j < |s.p.idle| ==> s.p.idle[i] != s.p.idle[j])
    && (forall t, u, x :: Keeps(s.pc, t, x) && Keeps(s.pc, u, x) ==> t == u)
    && (forall x :: x in s.p.idle ==> !Held(s, x))
    && (forall x :: x in s.built <==> x in s.p.idle || Held(s, x))
  }

  /** While anyone sleeps, enough threads are awake to take everything that is free. */
  ghost predicate NotStranded(s: State) {
    Sleepers(s.pc) != {} ==> |Awake(s.pc)| >= |s.p.idle| + s.p.slots - s.p.constructed
  }

  ghost predicate Inv(s: State) { Conserved(s) && Exclusive(s) && NotStranded(s) }

  lemma InitialInv(s: State)
    requires Initial(s)
    ensures Inv(s)
  {
  }

  /** What moving one thread does to the four counts. */
  lemma Move(pc: map<ThreadId, Pc>, t: ThreadId, to: Pc)
    requires t in pc
    ensures |Awake(pc[t := to])| == |Awake(pc)| - Bit(pc[t].Awakened?) + Bit(to.Awakened?)
    ensures |Builders(pc[t := to])| == |Builders(pc)| - Bit(pc[t].Building?) + Bit(to.Building?)
    ensures |Keepers(pc[t := to])| == |Keepers(pc)| - Bit(pc[t].Holding?) + Bit(to.Holding?)
    ensures Sleepers(pc[t := to]) == Sleepers(pc) - {t} + (if to.Asleep? then {t} else {})
  {
    var pc' := pc[t := to];
    assert |Awake(pc')| == |Awake(pc)| - Bit(pc[t].Awakened?) + Bit(to.Awakened?) by {
      CountOne(Awake(pc), Awake(pc'), t);
    }
    assert |Builders(pc')| == |Builders(pc)| - Bit(pc[t].Building?) + Bit(to.Building?) by {
      CountOne(Builders(pc), Builders(pc'), t);
    }
    assert |Keepers(pc')| == |Keepers(pc)| - Bit(pc[t].Holding?) + Bit(to.Holding?) by {
      CountOne(Keepers(pc), Keepers(pc'), t);
    }
  }

  lemma MoveAfterSignal(pc: map<ThreadId, Pc>, wakes: Option<ThreadId>, t: ThreadId)
    requires t in pc && Wakeable(pc, wakes) && (pc[t].Building? || pc[t].Holding?)
    ensures var pc' := Signal(pc, wakes)[t := Outside];
            && (Sleepers(pc') != {} ==> |Awake(pc')| == |Awake(pc)| + 1 && Sleepers(pc) != {})
            && |Builders(pc')| == |Builders(pc)| - Bit(pc[t].Building?)
            && |Keepers(pc')| == |Keepers(pc)| - Bit(pc[t].Holding?)
  {
    if wakes.Some? {
      Move(pc, wakes.value, Awakened(pc[wakes.value].deadline));
    }
    Move(Signal(pc, wakes), t, Outside);
  }

  lemma ConservedStep(s: State, ev: Event)
    requires Inv(s) && Enabled(s, ev)
    ensures Conserved(Apply(s, ev)) && NotStranded(Apply(s, ev))
  {
    match ev {
      case BuildFailed(t, wakes) => MoveAfterSignal(s.pc, wakes, t);
      case CheckedIn(t, wakes) => MoveAfterSignal(s.pc, wakes, t);
      case Tick(_, _) =>
      case _ => Move(s.pc, ev.t, Apply(s, ev).pc[ev.t]);
    }
  }

  /** Nothing moves between the idle list, the holders and the built. */
  lemma ExclusiveQuiet(s: State, s': State)
    requires Exclusive(s) && s'.p.idle == s.p.idle && s'.built == s.built
    requires forall t, x :: Keeps(s.pc, t, x) <==> Keeps(s'.pc, t, x)
    ensures Exclusive(s')
  {
  }

  /** One thread's holding begins or ends; everyone else's stays. */
  lemma HeldMoves(s: State, s': State, t: ThreadId, x: Sandbox)
    requires t in s.pc && t in s'.pc
    requires forall u, y :: u != t ==> (Keeps(s.pc, u, y) <==> Keeps(s'.pc, u, y))
    requires s'.pc[t] == Holding(x) && !s.pc[t].Holding?
    ensures forall y :: Held(s', y) <==> y == x || Held(s, y)
  {
    assert Keeps(s'.pc, t, x);
    forall y
      ensures Held(s', y) <==> y == x || Held(s, y)
    {
      if u :| Keeps(s.pc, u, y) {
        assert Keeps(s'.pc, u, y);
      }
      if u :| Keeps(s'.pc, u, y) {
        assert u == t || Keeps(s.pc, u, y);
      }
    }
  }

  lemma ExclusivePop(s: State, t: ThreadId)
    requires Exclusive(s) && t in s.pc && !s.pc[t].Holding? && s.p.idle != []
    ensures var last := |s.p.idle| - 1;
            Exclusive(s.(p := s.p.(idle := s.p.idle[..last]), pc := s.pc[t := Holding(s.p.idle[last])]))
  {
    var last := |s.p.idle| - 1;
    var s' := s.(p := s.p.(idle := s.p.idle[..last]), pc := s.pc[t := Holding(s.p.idle[last])]);
    assert s.p.idle == s'.p.idle + [s.p.idle[last]];
    HeldMoves(s, s', t, s.p.idle[last]);
    assert !Held(s, s.p.idle[last]);
  }

  lemma ExclusiveBuilt(s: State, t: ThreadId, x: Sandbox)
    requires Exclusive(s) && t in s.pc && !s.pc[t].Holding? && x !in s.built
    ensures Exclusive(s.(pc := s.pc[t := Holding(x)], built := s.built + {x}))
  {
    HeldMoves(s, s.(pc := s.pc[t := Holding(x)], built := s.built + {x}), t, x);
    assert !Held(s, x);
  }

  lemma ExclusiveCheckin(s: State, s': State, t: ThreadId)
    requires Exclusive(s) && t in s.pc && s.pc[t].Holding? && t in s'.pc && !s'.pc[t].Holding?
    requires forall u, y :: u != t ==> (Keeps(s.pc, u, y) <==> Keeps(s'.pc, u, y))
    requires s'.p.idle == s.p.idle + [s.pc[t].sandbox] && s'.built == s.built
    ensures Exclusive(s')
  {
    var x := s.pc[t].sandbox;
    HeldMoves(s', s, t, x);
    assert Keeps(s.pc, t, x);
    assert Held(s, x) && x !in s.p.idle;
    assert forall u :: Keeps(s'.pc, u, x) ==> u != t && Keeps(s.pc, u, x);
  }

  lemma ExclusiveStep(s: State, ev: Event)
    requires Inv(s) && Enabled(s, ev)
    ensures Exclusive(Apply(s, ev))
  {
    match ev {
      case ClaimEvent(t) =>
        if s.p.idle != [] {
          ExclusivePop(s, t);
        } else {
          ExclusiveQuiet(s, Apply(s, ev));
        }
      case Built(t, sandbox) => ExclusiveBuilt(s, t, sandbox);
      case CheckedIn(t, _) => ExclusiveCheckin(s, Apply(s, ev), t);
      case _ => ExclusiveQuiet(s, Apply(s, ev));
    }
  }

  // Over whole runs.

  lemma {:induction false} Reachable(states: seq<State>, events: seq<Event>, i: nat)
    requires Run(states, events) && i < |states|
    ensures Inv(states[i])
  {
    if i == 0 {
      InitialInv(states[0]);
    } else {
      Reachable(states, events, i - 1);
      ConservedStep(states[i - 1], events[i - 1]);
      ExclusiveStep(states[i - 1], events[i - 1]);
    }
  }

  /** What a claim comes to: an idle Sandbox before a new one, a new one before a wait, and
      PoolTimeoutError exactly when the deadline has passed with every slot being built or held. */
  lemma ClaimExactly(states: seq<State>, events: seq<Event>, i: nat)
    requires Run(states, events) && i < |events| && events[i].ClaimEvent?
    ensures var s, t := states[i], events[i].t;
            var to := states[i + 1].pc[t];
            var busy := |Builders(s.pc)| + |Keepers(s.pc)|;
            var late := s.pc[t].deadline.Some? && s.pc[t].deadline.value <= s.now;
            && (to.Holding? <==> s.p.idle != [])
            && (if to.Holding? then states[i + 1].p.idle + [to.sandbox] == s.p.idle else states[i + 1].p.idle == s.p.idle)
            && (to.Building? <==> s.p.idle == [] && busy < s.p.slots)
            && (to.Outside? <==> s.p.idle == [] && busy == s.p.slots && late)
            && (to.Asleep? <==> s.p.idle == [] && busy == s.p.slots && !late)
  {
    assert Conserved(states[i]) && Exclusive(states[i]) by { Reachable(states, events, i); }
  }

  // When a thread times out, by its own arrival.

  predicate Wanting(pc: Pc) { pc.Claiming? || pc.Asleep? || pc.Awakened? }

  /** The `j`th event is the arrival of `t`, and it has wanted a Sandbox ever since, up to `i`. */
  ghost predicate ArrivedAt(states: seq<State>, events: seq<Event>, j: nat, i: nat, t: ThreadId) {
    && j < i < |states| && j < |events| && events[j] == Arrive(t)
    && forall k :: j < k <= i ==> t in states[k].pc && Wanting(states[k].pc[t])
  }

  /** A thread's deadline is its arrival plus the pool's timeout, if it has one. */
  ghost predicate DueFrom(states: seq<State>, j: nat, deadline: Option<int>)
    requires j < |states|
  {
    var timeout := states[0].timeout;
    deadline == if timeout.Some? then Some(states[j].now + timeout.value) else None
  }

  lemma {:induction false} TimeoutFixed(states: seq<State>, events: seq<Event>, i: nat)
    requires Run(states, events) && i < |states|
    ensures states[i].timeout == states[0].timeout && states[i].p.slots == states[0].p.slots
  {
    if i > 0 {
      TimeoutFixed(states, events, i - 1);
      var ev := events[i - 1];
    }
  }

  lemma WantingStep(s: State, ev: Event, t: ThreadId)
    requires Enabled(s, ev) && t in Apply(s, ev).pc && Wanting(Apply(s, ev).pc[t])
    ensures t in s.pc
    ensures ev != Arrive(t) ==> Wanting(s.pc[t]) && Apply(s, ev).pc[t].deadline == s.pc[t].deadline
  {
  }

  lemma {:induction false} Arrived(states: seq<State>, events: seq<Event>, i: nat, t: ThreadId) returns (j: nat)
    requires Run(states, events) && i < |states| && t in states[i].pc && Wanting(states[i].pc[t])
    ensures ArrivedAt(states, events, j, i, t) && DueFrom(states, j, states[i].pc[t].deadline)
  {
    WantingStep(states[i - 1], events[i - 1], t);
    if events[i - 1] == Arrive(t) {
      j := i - 1;
      TimeoutFixed(states, events, j);
    } else {
      j := Arrived(states, events, i - 1, t);
    }
  }

  /** A claim raises the timeout exactly when every slot is being built or held and the pool's timeout
      has passed since its thread arrived; without a timeout it never does. */
  lemma TimesOutExactly(states: seq<State>, events: seq<Event>, i: nat) returns (j: nat)
    requires Run(states, events) && i < |events| && events[i].ClaimEvent?
    ensures ArrivedAt(states, events, j, i, events[i].t)
    ensures var s, timeout := states[i], states[0].timeout;
            states[i + 1].pc[events[i].t].Outside? <==>
            && s.p.idle == [] && |Builders(s.pc)| + |Keepers(s.pc)| == states[0].p.slots
            && timeout.Some? && s.now >= states[j].now + timeout.value
  {
    j := Arrived(states, events, i, events[i].t);
    ClaimExactly(states, events, i);
    TimeoutFixed(states, events, i);
  }

  /** A slot that is free while someone sleeps has a thread awake to claim it. */
  lemma NobodyStranded(states: seq<State>, events: seq<Event>, i: nat)
    requires Run(states, events) && i < |states|
    requires Sleepers(states[i].pc) != {}
    ensures var s := states[i];
            s.p.idle != [] || s.p.constructed < s.p.slots ==>
              exists t :: t in s.pc && s.pc[t].Awakened? &&
                          !ClaimOrWait(s.p, s.pc[t].deadline, s.now).1.Wait? &&
                          !ClaimOrWait(s.p, s.pc[t].deadline, s.now).1.TimedOut?
  {
    Reachable(states, events, i);
    var s := states[i];
    if s.p.idle != [] || s.p.constructed < s.p.slots {
      assert Awake(s.pc) != {};
      var t :| t in Awake(s.pc);
      assert s.pc[t].Awakened?;
    }
  }
}
