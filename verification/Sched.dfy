/** Who is to stop waiting: the thread-local `Current` of `crates/kobako-runtime/src/sched.rs`.

    A thread's behaviour is a tree of actions, runs nested inside runs, with an interrupt or a panic
    anywhere. The class `Task` carries the tree out on the fields the source keeps; the log it leaves
    is judged against what the log alone says. */
module Sched {
  import opened Wrappers

  /** Milliseconds on the monotonic clock. */
  type Instant = int

  datatype Action =
    | Interrupt
    | Wait(now: Instant)
    | RunTask(deadline: Option<Instant>, body: seq<Action>)
    | Panic

  datatype Event =
    | Entered(deadline: Option<Instant>)
    | Left
    | Posted
    | Looked(now: Instant, fatal: bool)

  datatype Current = Current(interrupted: bool, deadline: Option<Instant>, depth: int)

  predicate FatalSignalPending(c: Current, now: Instant) {
    c.interrupted || (c.deadline.Some? && now >= c.deadline.value)
  }

  datatype Outcome = Outcome(current: Current, log: seq<Event>, panicked: bool)

  /** Entering a run, its body, and the `Outer` guard's drop, which also runs on a panic. */
  function RunOne(c: Current, log: seq<Event>, deadline: Option<Instant>, body: seq<Action>): (r: Outcome)
    decreases body, 1
  {
    var inside := c.(deadline := deadline, depth := c.depth + 1);
    var o := Exec(inside, log + [Entered(deadline)], body);
    var depth := o.current.depth - 1;
    Outcome(Current(o.current.interrupted && depth != 0, c.deadline, depth), o.log + [Left], o.panicked)
  }

  /** A panic skips what is left of its own body and of every body around it. */
  function Exec(c: Current, log: seq<Event>, actions: seq<Action>): (r: Outcome)
    decreases actions, 0
  {
    if actions == [] then Outcome(c, log, false)
    else
      match actions[0]
      case Panic => Outcome(c, log, true)
      case Interrupt => Exec(c.(interrupted := true), log + [Posted], actions[1..])
      case Wait(now) => Exec(c, log + [Looked(now, FatalSignalPending(c, now))], actions[1..])
      case RunTask(deadline, body) =>
        var o := RunOne(c, log, deadline, body);
        if o.panicked then o else Exec(o.current, o.log, actions[1..])
  }

  // What a log says on its own.

  /** The deadlines of the runs a log leaves open, the innermost last. */
  ghost function Open(log: seq<Event>): seq<Option<Instant>> {
    if log == [] then [] else Opened(Open(log[..|log| - 1]), log[|log| - 1])
  }

  ghost function Opened(open: seq<Option<Instant>>, e: Event): seq<Option<Instant>> {
    if e.Entered? then open + [e.deadline]
    else if e.Left? && open != [] then open[..|open| - 1]
    else open
  }

  ghost function Innermost(open: seq<Option<Instant>>): Option<Instant> {
    if open == [] then None else open[|open| - 1]
  }

  /** Whether the `m`th event ends an outermost run. */
  ghost predicate EndsAll(log: seq<Event>, m: nat)
    requires m < |log|
  {
    log[m].Left? && Open(log[..m + 1]) == []
  }

  /** An interrupt was posted and no outermost run has ended since. */
  ghost predicate Pending(log: seq<Event>) {
    exists i :: 0 <= i < |log| && log[i].Posted? && forall m :: i < m < |log| ==> !EndsAll(log, m)
  }

  ghost predicate Due(log: seq<Event>, now: Instant) {
    var innermost := Innermost(Open(log));
    innermost.Some? && now >= innermost.value
  }

  /** Every look in `log` was answered as the log before it says. */
  ghost predicate Truthful(log: seq<Event>) {
    forall k :: 0 <= k < |log| && log[k].Looked? ==>
      (log[k].fatal <==> Pending(log[..k]) || Due(log[..k], log[k].now))
  }

  ghost predicate Tied(c: Current, log: seq<Event>) {
    var open := Open(log);
    && c.depth == |open|
    && c.deadline == Innermost(open)
    && (c.interrupted <==> Pending(log))
    && Truthful(log)
  }

  lemma PendingGrows(log: seq<Event>, e: Event)
    ensures Pending(log + [e]) <==>
            e.Posted? || (Pending(log) && !(e.Left? && Open(log + [e]) == []))
  {
    var log' := log + [e];
    forall m | 0 <= m < |log|
      ensures EndsAll(log', m) == EndsAll(log, m)
    {
      assert log'[..m + 1] == log[..m + 1];
    }
    assert log'[..|log| + 1] == log';
    assert EndsAll(log', |log|) == (e.Left? && Open(log') == []);
    if e.Posted? {
      assert log'[|log|].Posted?;
    } else if Pending(log) {
      var i :| 0 <= i < |log| && log[i].Posted? && forall m :: i < m < |log| ==> !EndsAll(log, m);
      assert log'[i].Posted?;
    }
    if Pending(log') && !e.Posted? {
      var i :| 0 <= i < |log'| && log'[i].Posted? && forall m :: i < m < |log'| ==> !EndsAll(log', m);
      assert i < |log| && log[i].Posted?;
    }
  }

  lemma OpenGrows(log: seq<Event>, e: Event)
    ensures Open(log + [e]) == Opened(Open(log), e)
  {
  }

  lemma TruthfulGrows(log: seq<Event>, e: Event)
    requires Truthful(log)
    requires e.Looked? ==> (e.fatal <==> Pending(log) || Due(log, e.now))
    ensures Truthful(log + [e])
  {
    assert (log + [e])[..|log|] == log;
    assert forall k :: 0 <= k < |log| ==> (log + [e])[..k] == log[..k];
  }

  lemma Grow(log: seq<Event>, e: Event)
    requires Truthful(log)
    requires e.Looked? ==> (e.fatal <==> Pending(log) || Due(log, e.now))
    ensures Truthful(log + [e])
    ensures Pending(log + [e]) <==>
            e.Posted? || (Pending(log) && !(e.Left? && Open(log + [e]) == []))
  {
    PendingGrows(log, e);
    TruthfulGrows(log, e);
  }

  lemma EnterTied(c: Current, log: seq<Event>, deadline: Option<Instant>)
    requires Tied(c, log)
    ensures Tied(c.(deadline := deadline, depth := c.depth + 1), log + [Entered(deadline)])
    ensures Open(log + [Entered(deadline)]) == Open(log) + [deadline]
  {
    Grow(log, Entered(deadline));
    OpenGrows(log, Entered(deadline));
  }

  lemma LeaveTied(c: Current, log: seq<Event>, open: seq<Option<Instant>>, deadline: Option<Instant>)
    requires Tied(c, log) && Open(log) == open + [deadline]
    ensures Tied(Current(c.interrupted && |open| != 0, Innermost(open), |open|), log + [Left])
    ensures Open(log + [Left]) == open
  {
    Grow(log, Left);
    OpenGrows(log, Left);
  }

  /** However a run ends, the runs around it are open as they were, and the fields the source keeps
      say exactly what the log says. */
  lemma {:induction false} RunTied(c: Current, log: seq<Event>, deadline: Option<Instant>, body: seq<Action>)
    requires Tied(c, log)
    ensures var r := RunOne(c, log, deadline, body);
            Tied(r.current, r.log) && Open(r.log) == Open(log) && log <= r.log
    decreases body, 1
  {
    var inside := c.(deadline := deadline, depth := c.depth + 1);
    var log1 := log + [Entered(deadline)];
    EnterTied(c, log, deadline);
    ExecTied(inside, log1, body);
    var o := Exec(inside, log1, body);
    LeaveTied(o.current, o.log, Open(log), deadline);
  }

  lemma {:induction false} ExecTied(c: Current, log: seq<Event>, actions: seq<Action>)
    requires Tied(c, log)
    ensures var r := Exec(c, log, actions);
            Tied(r.current, r.log) && Open(r.log) == Open(log) && log <= r.log
    decreases actions, 0
  {
    if actions != [] {
      match actions[0] {
        case Panic =>
        case Interrupt =>
          Grow(log, Posted);
          OpenGrows(log, Posted);
          ExecTied(c.(interrupted := true), log + [Posted], actions[1..]);
        case Wait(now) =>
          var look := Looked(now, FatalSignalPending(c, now));
          Grow(log, look);
          OpenGrows(log, look);
          ExecTied(c, log + [look], actions[1..]);
        case RunTask(deadline, body) =>
          RunTied(c, log, deadline, body);
          var o := RunOne(c, log, deadline, body);
          if !o.panicked {
            ExecTied(o.current, o.log, actions[1..]);
          }
      }
    }
  }

  const FRESH := Current(false, None, 0)

  /** For every tree a thread carries out from rest: a wait is told to stop exactly when an interrupt
      was posted since the last outermost run ended or the innermost run's deadline has passed. */
  lemma KillableWaits(actions: seq<Action>)
    ensures Truthful(Exec(FRESH, [], actions).log)
    ensures Exec(FRESH, [], actions).current.depth == 0
    ensures Exec(FRESH, [], actions).current.deadline == None
  {
    ExecTied(FRESH, [], actions);
  }

  /** Once an interrupt is in, nothing inside the outermost run lets it go, and its end does. */
  lemma {:induction false} InterruptLasts(c: Current, log: seq<Event>, actions: seq<Action>)
    requires c.depth > 0
    ensures Exec(c, log, actions).current.depth == c.depth
    ensures c.interrupted ==> Exec(c, log, actions).current.interrupted
    decreases actions
  {
    if actions != [] {
      match actions[0] {
        case Panic =>
        case Interrupt => InterruptLasts(c.(interrupted := true), log + [Posted], actions[1..]);
        case Wait(now) =>
          InterruptLasts(c, log + [Looked(now, FatalSignalPending(c, now))], actions[1..]);
        case RunTask(deadline, body) =>
          var inside := c.(deadline := deadline, depth := c.depth + 1);
          InterruptLasts(inside, log + [Entered(deadline)], body);
          var o := RunOne(c, log, deadline, body);
          if !o.panicked {
            InterruptLasts(o.current, o.log, actions[1..]);
          }
      }
    }
  }

  lemma OutermostRunLetsGo(c: Current, log: seq<Event>, deadline: Option<Instant>, body: seq<Action>)
    requires c.depth == 0
    ensures RunOne(c, log, deadline, body).current == Current(false, c.deadline, 0)
  {
    InterruptLasts(c.(deadline := deadline, depth := 1), log + [Entered(deadline)], body);
  }

  /** Inside a run that is interrupted, every look at whatever depth is told to stop. */
  lemma {:induction false} InterruptedLooks(c: Current, log: seq<Event>, actions: seq<Action>)
    requires c.interrupted && c.depth > 0
    ensures var after := Exec(c, log, actions).log;
            log <= after && forall k :: |log| <= k < |after| && after[k].Looked? ==> after[k].fatal
    decreases actions
  {
    if actions != [] {
      match actions[0] {
        case Panic =>
        case Interrupt => InterruptedLooks(c, log + [Posted], actions[1..]);
        case Wait(now) => InterruptedLooks(c, log + [Looked(now, true)], actions[1..]);
        case RunTask(deadline, body) =>
          var inside := c.(deadline := deadline, depth := c.depth + 1);
          InterruptedLooks(inside, log + [Entered(deadline)], body);
          InterruptLasts(inside, log + [Entered(deadline)], body);
          var o := RunOne(c, log, deadline, body);
          if !o.panicked {
            InterruptedLooks(o.current, o.log, actions[1..]);
          }
      }
    }
  }

  /** An interrupt posted while no run is open is kept, and stops every wait of the next one. */
  lemma EarlyInterruptReachesNextRun(c: Current, log: seq<Event>, deadline: Option<Instant>, body: seq<Action>)
    requires c.depth == 0
    ensures var after := Exec(c, log, [Interrupt, RunTask(deadline, body)]).log;
            log <= after && forall k :: |log| <= k < |after| && after[k].Looked? ==> after[k].fatal
  {
    var c1, log1, run := c.(interrupted := true), log + [Posted], RunTask(deadline, body);
    InterruptedLooks(Current(true, deadline, 1), log1 + [Entered(deadline)], body);
    assert [Interrupt, run][1..] == [run] && [run][1..] == [];
    assert Exec(c, log, [Interrupt, run]) == Exec(c1, log1, [run]);
    assert Exec(c1, log1, [run]).log == RunOne(c1, log1, deadline, body).log;
  }

  // What a tree does, apart from what its waits are told.

  /** Whether a tree panics. */
  predicate Panics(actions: seq<Action>) {
    actions != [] && (PanicsIn(actions[0]) || Panics(actions[1..]))
  }

  predicate PanicsIn(action: Action) { action.Panic? || (action.RunTask? && Panics(action.body)) }

  /** The marks a tree leaves, up to a panic: every run entered and, however it ends, left again, every
      interrupt and every look, in order, with no answers. */
  function Marks(actions: seq<Action>): seq<Event> {
    if actions == [] then []
    else MarksOf(actions[0]) + (if PanicsIn(actions[0]) then [] else Marks(actions[1..]))
  }

  function MarksOf(action: Action): seq<Event> {
    match action
    case Panic => []
    case Interrupt => [Posted]
    case Wait(now) => [Looked(now, false)]
    case RunTask(deadline, body) => [Entered(deadline)] + Marks(body) + [Left]
  }

  /** A log with its answers struck out. */
  function Struck(log: seq<Event>): (r: seq<Event>)
    ensures |r| == |log|
  {
    seq(|log|, i requires 0 <= i < |log| => if log[i].Looked? then Looked(log[i].now, false) else log[i])
  }

  /** The log is the tree's own course and nothing else: no interrupt, look or run is lost or made up. */
  lemma {:induction false} LogIsTree(c: Current, log: seq<Event>, actions: seq<Action>)
    ensures Struck(Exec(c, log, actions).log) == Struck(log) + Marks(actions)
    ensures Exec(c, log, actions).panicked == Panics(actions)
    decreases actions, 0
  {
    if actions != [] {
      var rest := actions[1..];
      match actions[0] {
        case Panic =>
        case Interrupt =>
          LogIsTree(c.(interrupted := true), log + [Posted], rest);
          assert Struck(log + [Posted]) == Struck(log) + [Posted];
        case Wait(now) =>
          var look := Looked(now, FatalSignalPending(c, now));
          LogIsTree(c, log + [look], rest);
          assert Struck(log + [look]) == Struck(log) + [Looked(now, false)];
        case RunTask(deadline, body) =>
          RunLogIsTree(c, log, deadline, body);
          var o := RunOne(c, log, deadline, body);
          if !o.panicked {
            LogIsTree(o.current, o.log, rest);
          }
      }
    }
  }

  lemma {:induction false} RunLogIsTree(c: Current, log: seq<Event>, deadline: Option<Instant>, body: seq<Action>)
    ensures Struck(RunOne(c, log, deadline, body).log) == Struck(log) + MarksOf(RunTask(deadline, body))
    ensures RunOne(c, log, deadline, body).panicked == Panics(body)
    decreases body, 1
  {
    var inside, log1 := c.(deadline := deadline, depth := c.depth + 1), log + [Entered(deadline)];
    LogIsTree(inside, log1, body);
    var o := Exec(inside, log1, body);
    assert Struck(log1) == Struck(log) + [Entered(deadline)];
    assert Struck(o.log + [Left]) == Struck(o.log) + [Left];
  }

  /** From the tree alone: a wait is told to stop exactly when the tree posted an interrupt before it,
      with no outermost run ended in between, or the innermost run's deadline has passed. */
  lemma WaitsByTree(actions: seq<Action>, k: nat)
    requires k < |Marks(actions)| && Marks(actions)[k].Looked?
    ensures var log, before := Exec(FRESH, [], actions).log, Marks(actions)[..k];
            && |log| == |Marks(actions)| && log[k].Looked? && log[k].now == Marks(actions)[k].now
            && (log[k].fatal <==> Pending(before) || Due(before, log[k].now))
  {
    var log := Exec(FRESH, [], actions).log;
    LogIsTree(FRESH, [], actions);
    KillableWaits(actions);
    assert Struck([]) + Marks(actions) == Marks(actions);
    assert Struck(log)[k] == Marks(actions)[k];
    assert Struck(log[..k]) == Marks(actions)[..k];
    StruckSame(log[..k], log[k].now);
  }

  lemma {:induction false} StruckOpen(log: seq<Event>)
    ensures Open(Struck(log)) == Open(log)
  {
    if log != [] {
      StruckOpen(log[..|log| - 1]);
      assert Struck(log)[..|log| - 1] == Struck(log[..|log| - 1]);
    }
  }

  lemma StruckSame(log: seq<Event>, now: Instant)
    ensures Pending(Struck(log)) <==> Pending(log)
    ensures Due(Struck(log), now) <==> Due(log, now)
  {
    var struck := Struck(log);
    StruckOpen(log);
    forall m | 0 <= m < |log| ensures EndsAll(struck, m) == EndsAll(log, m) {
      StruckOpen(log[..m + 1]);
      assert struck[..m + 1] == Struck(log[..m + 1]);
    }
    if i :| 0 <= i < |log| && log[i].Posted? && forall m :: i < m < |log| ==> !EndsAll(log, m) {
      assert struck[i].Posted?;
    }
    if i :| 0 <= i < |log| && struck[i].Posted? && forall m :: i < m < |log| ==> !EndsAll(struck, m) {
      assert log[i].Posted?;
    }
  }

  // The deadlines of the runs around.

  ghost predicate Passed(deadline: Option<Instant>, now: Instant) { deadline.Some? && now >= deadline.value }

  /** Some open run is past its deadline at `now`. */
  ghost predicate AnyPassed(open: seq<Option<Instant>>, now: Instant) {
    exists i :: 0 <= i < |open| && Passed(open[i], now)
  }

  /** A deadline inside one of `around` neither drops nor puts off any of them. */
  predicate Narrower(deadline: Option<Instant>, around: Option<Instant>) {
    around.Some? ==> deadline.Some? && deadline.value <= around.value
  }

  ghost predicate Narrowing(open: seq<Option<Instant>>) {
    forall i, j :: 0 <= i < j < |open| ==> Narrower(open[j], open[i])
  }

  /** After entering a run, waits stop at every deadline around exactly when its own neither drops nor
      puts off any of them, or an interrupt stops them anyway. */
  lemma OuterDeadlinesExactly(c: Current, log: seq<Event>, deadline: Option<Instant>)
    requires Tied(c, log)
    ensures var open, inside := Open(log), c.(deadline := deadline, depth := c.depth + 1);
            (forall now :: AnyPassed(open + [deadline], now) ==> FatalSignalPending(inside, now)) <==>
            c.interrupted || forall i :: 0 <= i < |open| ==> Narrower(deadline, open[i])
  {
    var open, inside := Open(log), c.(deadline := deadline, depth := c.depth + 1);
    var all := open + [deadline];
    if i :| 0 <= i < |open| && !Narrower(deadline, open[i]) {
      assert Passed(all[i], open[i].value) && AnyPassed(all, open[i].value);
    } else {
      forall now | AnyPassed(all, now) ensures FatalSignalPending(inside, now) {
        var i :| 0 <= i < |all| && Passed(all[i], now);
        assert i < |open| ==> Narrower(deadline, open[i]);
      }
    }
  }

  /** A run without a deadline inside one due at 5 is not told to stop at 7. */
  lemma OuterDeadlineHidden()
    ensures Exec(FRESH, [], [RunTask(Some(5), [RunTask(None, [Wait(7)])])]).log ==
            [Entered(Some(5)), Entered(None), Looked(7, false), Left, Left]
  {
    var c1, c2 := Current(false, Some(5), 1), Current(false, None, 2);
    var log1, log2 := [Entered(Some(5))], [Entered(Some(5)), Entered(None)];
    assert Exec(c2, log2, [Wait(7)]) == Outcome(c2, log2 + [Looked(7, false)], false);
    assert log1 + [Entered(None)] == log2 && [] + [Entered(Some(5))] == log1;
    assert RunOne(c1, log1, None, [Wait(7)]) == Outcome(c1, log2 + [Looked(7, false)] + [Left], false);
    assert Exec(c1, log1, [RunTask(None, [Wait(7)])]) == Outcome(c1, log2 + [Looked(7, false)] + [Left], false);
  }

  /** Every run in the tree has a deadline no later than the run around it, where that has one. */
  predicate AllNarrower(actions: seq<Action>, around: Option<Instant>) {
    actions == [] ||
    ((actions[0].RunTask? ==> NarrowerRun(actions[0], around)) && AllNarrower(actions[1..], around))
  }

  predicate NarrowerRun(action: Action, around: Option<Instant>)
    requires action.RunTask?
  {
    Narrower(action.deadline, around) && AllNarrower(action.body, action.deadline)
  }

  /** At every look the open runs' deadlines tighten inwards. */
  ghost predicate LooksNarrowing(log: seq<Event>) {
    forall k :: 0 <= k < |log| && log[k].Looked? ==> Narrowing(Open(log[..k]))
  }

  lemma LooksGrow(log: seq<Event>, e: Event)
    requires LooksNarrowing(log) && (e.Looked? ==> Narrowing(Open(log)))
    ensures LooksNarrowing(log + [e])
  {
    assert (log + [e])[..|log|] == log;
    assert forall k :: 0 <= k < |log| ==> (log + [e])[..k] == log[..k];
  }

  lemma NarrowingGrows(open: seq<Option<Instant>>, deadline: Option<Instant>)
    requires Narrowing(open) && Narrower(deadline, Innermost(open))
    ensures Narrowing(open + [deadline])
  {
    var all := open + [deadline];
    forall i, j | 0 <= i < j < |all| ensures Narrower(all[j], all[i]) {
      if j == |open| && i < |open| - 1 {
        assert Narrower(open[|open| - 1], open[i]);
      }
    }
  }

  lemma {:induction false} ExecLooksNarrowing(c: Current, log: seq<Event>, actions: seq<Action>)
    requires Tied(c, log) && Narrowing(Open(log)) && LooksNarrowing(log) && AllNarrower(actions, c.deadline)
    ensures LooksNarrowing(Exec(c, log, actions).log)
    decreases actions, 0
  {
    if actions != [] {
      match actions[0] {
        case Panic =>
        case Interrupt =>
          LooksGrow(log, Posted);
          OpenGrows(log, Posted);
          Grow(log, Posted);
          ExecLooksNarrowing(c.(interrupted := true), log + [Posted], actions[1..]);
        case Wait(now) =>
          var look := Looked(now, FatalSignalPending(c, now));
          LooksGrow(log, look);
          OpenGrows(log, look);
          Grow(log, look);
          ExecLooksNarrowing(c, log + [look], actions[1..]);
        case RunTask(deadline, body) =>
          RunLooksNarrowing(c, log, deadline, body);
          RunTied(c, log, deadline, body);
          var o := RunOne(c, log, deadline, body);
          if !o.panicked {
            ExecLooksNarrowing(o.current, o.log, actions[1..]);
          }
      }
    }
  }

  lemma {:induction false} RunLooksNarrowing(c: Current, log: seq<Event>, deadline: Option<Instant>, body: seq<Action>)
    requires Tied(c, log) && Narrowing(Open(log)) && LooksNarrowing(log)
    requires Narrower(deadline, c.deadline) && AllNarrower(body, deadline)
    ensures LooksNarrowing(RunOne(c, log, deadline, body).log)
    decreases body, 1
  {
    var inside, log1 := c.(deadline := deadline, depth := c.depth + 1), log + [Entered(deadline)];
    LooksGrow(log, Entered(deadline));
    EnterTied(c, log, deadline);
    NarrowingGrows(Open(log), deadline);
    ExecLooksNarrowing(inside, log1, body);
    LooksGrow(Exec(inside, log1, body).log, Left);
  }

  /** In every tree whose runs tighten the deadlines around them, every wait stops once any open run,
      however far out, is past its deadline. */
  lemma EnclosingDeadlinesHold(actions: seq<Action>, k: nat)
    requires AllNarrower(actions, None)
    requires k < |Exec(FRESH, [], actions).log| && Exec(FRESH, [], actions).log[k].Looked?
    ensures var log := Exec(FRESH, [], actions).log;
            AnyPassed(Open(log[..k]), log[k].now) ==> log[k].fatal
  {
    var log := Exec(FRESH, [], actions).log;
    KillableWaits(actions);
    ExecLooksNarrowing(FRESH, [], actions);
    var open, now := Open(log[..k]), log[k].now;
    if AnyPassed(open, now) {
      var i :| 0 <= i < |open| && Passed(open[i], now);
      assert i < |open| - 1 ==> Narrower(open[|open| - 1], open[i]);
    }
  }

  const MAX_SLEEP := 10

  function Min(a: int, b: int): int { if a < b then a else b }

  /** The longest sleep within the cap that is not past the deadline. */
  function SleepSlice(deadline: Option<Instant>, now: Instant): (slice: int)
    ensures 0 <= slice <= 10 && (deadline.Some? && now <= deadline.value ==> now + slice <= deadline.value)
    ensures slice == 10 || (deadline.Some? && now + slice >= deadline.value)
  {
    if deadline.None? then MAX_SLEEP
    else if deadline.value <= now then 0
    else Min(deadline.value - now, MAX_SLEEP)
  }

  /** The times a wait looks at: each sleep lasts any part of its slice. */
  ghost predicate Sleeps(deadline: Option<Instant>, looks: seq<Instant>) {
    forall i :: 0 <= i < |looks| - 1 ==> looks[i] <= looks[i + 1] <= looks[i] + SleepSlice(deadline, looks[i])
  }

  /** However short its sleeps, a wait never sleeps past its deadline, so the look that finds it passed
      falls on it; and it looks again within the longest sleep of any moment in between, so it finds an
      interrupt by then. */
  lemma {:induction false} LooksInTime(deadline: Option<Instant>, looks: seq<Instant>, moment: Instant)
    requires looks != [] && Sleeps(deadline, looks) && looks[0] <= moment <= looks[|looks| - 1]
    ensures deadline.Some? && looks[0] <= deadline.value ==> looks[|looks| - 1] <= deadline.value
    ensures exists i :: 0 <= i < |looks| && moment <= looks[i] <= moment + MAX_SLEEP
  {
    if |looks| > 1 {
      var last := |looks| - 1;
      var before := looks[..last];
      assert Sleeps(deadline, before);
      if moment <= before[last - 1] {
        LooksInTime(deadline, before, moment);
        var i :| 0 <= i < |before| && moment <= before[i] <= moment + MAX_SLEEP;
        assert looks[i] == before[i];
      } else {
        LooksOrdered(deadline, before);
        LooksInTime(deadline, before, before[last - 1]);
        assert moment <= looks[last] <= moment + MAX_SLEEP;
      }
    }
  }

  lemma {:induction false} LooksOrdered(deadline: Option<Instant>, looks: seq<Instant>)
    requires looks != [] && Sleeps(deadline, looks)
    ensures looks[0] <= looks[|looks| - 1]
  {
    if |looks| > 1 {
      LooksOrdered(deadline, looks[..|looks| - 1]);
    }
  }

  /** The fields of `Current`, carried through a tree of actions in place. */
  class Task {
    var interrupted: bool
    var deadline: Option<Instant>
    var depth: int

    ghost function View(): Current
      reads this
    {
      Current(interrupted, deadline, depth)
    }

    constructor ()
      ensures View() == FRESH
    {
      interrupted, deadline, depth := false, None, 0;
    }

    method RunOn(limit: Option<Instant>, body: seq<Action>, log: seq<Event>)
      returns (after: seq<Event>, panicked: bool)
      modifies this
      ensures Outcome(View(), after, panicked) == RunOne(old(View()), log, limit, body)
      decreases body, 1
    {
      depth := depth + 1;
      var outer := deadline;
      deadline := limit;
      after, panicked := Perform(body, log + [Entered(limit)]);
      deadline := outer;
      depth := depth - 1;
      if depth == 0 {
        interrupted := false;
      }
      after := after + [Left];
    }

    method Perform(actions: seq<Action>, log: seq<Event>)
      returns (after: seq<Event>, panicked: bool)
      modifies this
      ensures Outcome(View(), after, panicked) == Exec(old(View()), log, actions)
      decreases actions, 0
    {
      if actions == [] {
        return log, false;
      }
      match actions[0] {
        case Panic => return log, true;
        case Interrupt =>
          interrupted := true;
          after := log + [Posted];
        case Wait(now) =>
          var fatal := interrupted || (deadline.Some? && now >= deadline.value);
          after := log + [Looked(now, fatal)];
        case RunTask(limit, body) =>
          after, panicked := RunOn(limit, body, log);
          if panicked {
            return;
          }
      }
      after, panicked := Perform(actions[1..], after);
    }
  }
}
