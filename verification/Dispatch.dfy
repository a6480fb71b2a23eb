/** Guest calls answered by host objects that may yield back into the guest: `CatalogHandler` of
    `crates/kobako/src/dispatch.rs`, `Yielder` of `crates/kobako/src/yielder.rs` and the Handle table of
    `crates/kobako/src/handles.rs`.

    One execution is a tree: a Call holds what its receiver did, and each yield holds the Calls the
    guest's block made before it answered. Every receiver and every guest script gives such trees, so
    a claim about all trees is one about all of them. */
module Dispatch {
  import opened Wrappers

  const MAX_HANDLE_ID: nat := 0x7fff_ffff

  type Receiver(==, !new) = nat
  type Body = string

  datatype FaultKind = Runtime | Argument | Undefined | Internal | Block
  datatype Fault = Fault(kind: FaultKind, message: string)

  datatype Target = Path(path: string) | HandleId(id: nat)

  datatype Reply = Answered(body: Body) | Break | Faulted(fault: Fault)

  /** How one re-entry into the guest ends; `Trapped` is one that never came back. */
  datatype YieldReply =
    | BlockOk(body: Body)
    | BlockBreak
    | BlockError(name: string, message: string)
    | BlockUnsupported
    | Trapped

  datatype YieldError =
    | Broke
    | Failed(name: string, message: string)
    | Aborted(message: string)
    | Refused(message: string)
    | Unsupported(message: string)

  /** What a receiver does while it runs: it yields, or tries to with arguments that cannot be written,
      hands out an object, or asks what an id names. */
  datatype Act =
    | Yields(calls: seq<Call>, reply: YieldReply)
    | Refuses(message: string)
    | Allocs(x: Receiver)
    | Looks(id: nat)

  datatype Call = Call(target: Target, verb: string, blockGiven: bool, acts: seq<Act>, result: Result<Body, Fault>)

  /** The sealed bindings, what this invocation resolves ahead of them, and the narrowed methods. */
  datatype Env = Env(resolved: seq<(string, Receiver)>, catalog: seq<(string, Receiver)>, hidden: set<(Receiver, string)>)

  // The Handle table.

  function Get(entries: seq<Receiver>, id: nat): Option<Receiver> {
    if id == 0 then None
    else if id - 1 < |entries| then Some(entries[id - 1])
    else None
  }

  function Alloc(entries: seq<Receiver>, x: Receiver): (seq<Receiver>, Option<nat>) {
    if |entries| >= MAX_HANDLE_ID then (entries, None) else (entries + [x], Some(|entries| + 1))
  }

  /** What a yield that ended in `reply` hands the receiver. */
  function CallPayload(reply: YieldReply): Result<Body, YieldError> {
    match reply
    case BlockOk(body) => Success(body)
    case BlockBreak => Failure(Broke)
    case BlockError(name, message) => Failure(Failed(name, message))
    case BlockUnsupported => Failure(Unsupported("the Sandbox runtime does not support yielding to a block"))
    case Trapped => Failure(Aborted("yield re-entry trapped"))
  }

  /** What an act through the Yielder hands the receiver, if it is one. */
  function Outcome(act: Act): Option<Result<Body, YieldError>> {
    match act
    case Yields(_, reply) => Some(CallPayload(reply))
    case Refuses(message) => Some(Failure(Refused(message)))
    case _ => None
  }

  /** `From<YieldError> for Fault`. */
  function FaultOf(e: YieldError): Fault {
    match e
    case Broke => Fault(Internal, "guest block break crossed the receiver")
    case Failed(name, message) => Fault(Block, name + ": " + message)
    case Aborted(message) => Fault(Internal, message)
    case Refused(message) => Fault(Runtime, message)
    case Unsupported(message) => Fault(Internal, message)
  }

  function Find(bindings: seq<(string, Receiver)>, path: string): Option<Receiver> {
    if bindings == [] then None
    else if bindings[0].0 == path then Some(bindings[0].1)
    else Find(bindings[1..], path)
  }

  function Resolve(env: Env, entries: seq<Receiver>, target: Target): Option<Receiver> {
    match target
    case Path(path) =>
      var first := Find(env.resolved, path);
      if first.Some? then first else Find(env.catalog, path)
    case HandleId(id) => Get(entries, id)
  }

  /** The receiver a Call reaches, if it reaches one. */
  function Reaches(env: Env, entries: seq<Receiver>, call: Call): Option<Receiver> {
    var found := Resolve(env, entries, call.target);
    if found.Some? && (found.value, call.verb) in env.hidden then None else found
  }

  /** What happened, at any nesting and in order: a target or an id looked up, an id issued, a Call
      answered. */
  datatype Line =
    | Resolved(target: Target, found: Option<Receiver>)
    | Issued(id: nat, x: Receiver)
    | Replied(call: Call, reached: bool, reply: Reply)

  datatype Ran = Ran(entries: seq<Receiver>, broken: bool, log: seq<Line>)

  function Answer(env: Env, entries: seq<Receiver>, call: Call): (Reply, seq<Receiver>, seq<Line>)
    decreases call
  {
    var asked := [Resolved(call.target, Resolve(env, entries, call.target))];
    if Reaches(env, entries, call).None? then
      var reply := Faulted(Fault(Undefined, ""));
      (reply, entries, asked + [Replied(call, false, reply)])
    else
      var ran := Perform(env, entries, call.acts, call.blockGiven);
      var reply := if ran.broken then Break else Plain(call);
      (reply, ran.entries, asked + ran.log + [Replied(call, true, reply)])
  }

  /** The receiver's own result as the guest would see it. */
  function Plain(call: Call): Reply {
    if call.result.Success? then Answered(call.result.value) else Faulted(call.result.error)
  }

  /** A receiver without a block has no Yielder to yield through. */
  function Perform(env: Env, entries: seq<Receiver>, acts: seq<Act>, blockGiven: bool): Ran
    decreases acts
  {
    if acts == [] then Ran(entries, false, [])
    else
      var first := PerformOne(env, entries, acts[0], blockGiven);
      var rest := Perform(env, first.entries, acts[1..], blockGiven);
      Ran(rest.entries, first.broken || rest.broken, first.log + rest.log)
  }

  function PerformOne(env: Env, entries: seq<Receiver>, act: Act, blockGiven: bool): Ran
    decreases act
  {
    match act
    case Refuses(_) => Ran(entries, false, [])
    case Allocs(x) =>
      var (after, id) := Alloc(entries, x);
      Ran(after, false, if id.Some? then [Issued(id.value, x)] else [])
    case Looks(id) => Ran(entries, false, [Resolved(HandleId(id), Get(entries, id))])
    case Yields(calls, reply) =>
      if !blockGiven then Ran(entries, false, [])
      else
        var ran := Serve(env, entries, calls);
        ran.(broken := reply.BlockBreak?)
  }

  /** The Calls a block makes, one after another; none of them breaks the block's own frame. */
  function Serve(env: Env, entries: seq<Receiver>, calls: seq<Call>): Ran
    decreases calls
  {
    if calls == [] then Ran(entries, false, [])
    else
      var (_, after, log) := Answer(env, entries, calls[0]);
      var rest := Serve(env, after, calls[1..]);
      Ran(rest.entries, false, log + rest.log)
  }

  // What the guest is told.

  ghost predicate OwnBreak(acts: seq<Act>) {
    exists i :: 0 <= i < |acts| && acts[i].Yields? && acts[i].reply.BlockBreak?
  }

  /** A Call that reached its receiver answers Break exactly when one of its own yields broke, and
      otherwise what the receiver returned; one that did not answers as undefined. */
  ghost predicate Rightly(line: Line) {
    if !line.Replied? then true
    else if !line.reached then line.reply.Faulted? && line.reply.fault.kind == Undefined
    else if line.call.blockGiven && OwnBreak(line.call.acts) then line.reply == Break
    else
      match line.call.result
      case Success(body) => line.reply == Answered(body)
      case Failure(fault) => line.reply == Faulted(fault)
  }

  lemma {:induction false} BrokenIsOwn(env: Env, entries: seq<Receiver>, acts: seq<Act>, blockGiven: bool)
    ensures Perform(env, entries, acts, blockGiven).broken <==> blockGiven && OwnBreak(acts)
    decreases acts
  {
    if acts != [] {
      var first := PerformOne(env, entries, acts[0], blockGiven);
      BrokenIsOwn(env, first.entries, acts[1..], blockGiven);
      var rest := acts[1..];
      assert OwnBreak(acts) <==> (acts[0].Yields? && acts[0].reply.BlockBreak?) || OwnBreak(rest) by {
        if OwnBreak(rest) {
          var i :| 0 <= i < |rest| && rest[i].Yields? && rest[i].reply.BlockBreak?;
          assert acts[i + 1] == rest[i];
        }
        if i :| 0 <= i < |acts| && acts[i].Yields? && acts[i].reply.BlockBreak? && i != 0 {
          assert rest[i - 1] == acts[i];
        }
      }
    }
  }

  // Nothing a tree says is left out.

  /** A Call that was answered, and whether it reached its receiver. */
  ghost predicate Answers(log: seq<Line>, call: Call, reached: bool) {
    exists reply :: Replied(call, reached, reply) in log
  }

  /** What each act of a receiver that was reached leaves in the log: a yield the answers to all its
      block's Calls, an issue its id unless the ids are used up, a lookup its answer. */
  ghost predicate ActLogged(log: seq<Line>, act: Act, blockGiven: bool, after: seq<Receiver>) {
    match act
    case Yields(calls, _) => blockGiven ==> forall c :: c in calls ==> Answers(log, c, true) || Answers(log, c, false)
    case Refuses(_) => true
    case Allocs(x) => (exists id :: Issued(id, x) in log) || |after| >= 0x7fff_ffff
    case Looks(id) => exists found :: Resolved(HandleId(id), found) in log
  }

  ghost predicate CallLogged(log: seq<Line>, call: Call, after: seq<Receiver>) {
    forall act :: act in call.acts ==> ActLogged(log, act, call.blockGiven, after)
  }

  /** Every Call that reached its receiver, at every nesting, left everything its acts are to leave. */
  ghost predicate Whole(log: seq<Line>, after: seq<Receiver>) {
    forall line :: line in log && line.Replied? && line.reached ==> CallLogged(log, line.call, after)
  }

  lemma MoreLogged(log: seq<Line>, more: seq<Line>, call: Call, after: seq<Receiver>, after': seq<Receiver>)
    requires CallLogged(log, call, after) && |after| <= |after'| && forall line :: line in log ==> line in more
    ensures CallLogged(more, call, after')
  {
    forall act | act in call.acts ensures ActLogged(more, act, call.blockGiven, after') {
      MoreActLogged(log, more, act, call.blockGiven, after, after');
    }
  }

  lemma MoreActLogged(
      log: seq<Line>, more: seq<Line>, act: Act, blockGiven: bool, after: seq<Receiver>, after': seq<Receiver>)
    requires ActLogged(log, act, blockGiven, after) && |after| <= |after'| && forall line :: line in log ==> line in more
    ensures ActLogged(more, act, blockGiven, after')
  {
    if act.Yields? && blockGiven {
      forall c | c in act.calls ensures Answers(more, c, true) || Answers(more, c, false) {
        assert Answers(log, c, true) || Answers(log, c, false);
      }
    }
  }

  lemma WholeThen(log: seq<Line>, mid: seq<Receiver>, log': seq<Line>, after: seq<Receiver>)
    requires Whole(log, mid) && Whole(log', after) && |mid| <= |after|
    ensures Whole(log + log', after)
  {
    var both := log + log';
    forall line | line in both && line.Replied? && line.reached ensures CallLogged(both, line.call, after) {
      if line in log {
        MoreLogged(log, both, line.call, mid, after);
      } else {
        MoreLogged(log', both, line.call, after, after);
      }
    }
  }

  /** In every execution the Call itself is answered, and every Call that reached its receiver, at every
      nesting, was carried out in full: each Call of each block it yielded to is answered, each object
      it handed out has an id, each id it asked about was looked up. */
  lemma {:induction false} NothingSkipped(env: Env, entries: seq<Receiver>, call: Call)
    ensures var (reply, after, log) := Answer(env, entries, call);
            Whole(log, after) && Replied(call, Reaches(env, entries, call).Some?, reply) in log
    decreases call
  {
    var (reply, after, log) := Answer(env, entries, call);
    if Reaches(env, entries, call).Some? {
      var ran := Perform(env, entries, call.acts, call.blockGiven);
      PerformWhole(env, entries, call.acts, call.blockGiven);
      forall line | line in log && line.Replied? && line.reached ensures CallLogged(log, line.call, after) {
        if line in ran.log {
          MoreLogged(ran.log, log, line.call, after, after);
        } else {
          forall act | act in call.acts ensures ActLogged(log, act, call.blockGiven, after) {
            MoreActLogged(ran.log, log, act, call.blockGiven, after, after);
          }
        }
      }
    }
  }

  lemma {:induction false} PerformWhole(env: Env, entries: seq<Receiver>, acts: seq<Act>, blockGiven: bool)
    ensures var ran := Perform(env, entries, acts, blockGiven);
            && Whole(ran.log, ran.entries) && |entries| <= |ran.entries|
            && forall act :: act in acts ==> ActLogged(ran.log, act, blockGiven, ran.entries)
    decreases acts
  {
    if acts != [] {
      var first := PerformOne(env, entries, acts[0], blockGiven);
      var rest := Perform(env, first.entries, acts[1..], blockGiven);
      var ran := Perform(env, entries, acts, blockGiven);
      PerformOneWhole(env, entries, acts[0], blockGiven);
      PerformWhole(env, first.entries, acts[1..], blockGiven);
      WholeThen(first.log, first.entries, rest.log, rest.entries);
      forall act | act in acts ensures ActLogged(ran.log, act, blockGiven, ran.entries) {
        if act == acts[0] {
          MoreActLogged(first.log, ran.log, act, blockGiven, first.entries, ran.entries);
        } else {
          MoreActLogged(rest.log, ran.log, act, blockGiven, rest.entries, ran.entries);
        }
      }
    }
  }

  lemma {:induction false} PerformOneWhole(env: Env, entries: seq<Receiver>, act: Act, blockGiven: bool)
    ensures var ran := PerformOne(env, entries, act, blockGiven);
            && Whole(ran.log, ran.entries) && |entries| <= |ran.entries|
            && ActLogged(ran.log, act, blockGiven, ran.entries)
    decreases act
  {
    if act.Yields? && blockGiven {
      ServeWhole(env, entries, act.calls);
    } else if act.Allocs? && |entries| < MAX_HANDLE_ID {
      assert PerformOne(env, entries, act, blockGiven).log == [Issued(|entries| + 1, act.x)];
    } else if act.Looks? {
      assert PerformOne(env, entries, act, blockGiven).log == [Resolved(HandleId(act.id), Get(entries, act.id))];
    }
  }

  lemma {:induction false} ServeWhole(env: Env, entries: seq<Receiver>, calls: seq<Call>)
    ensures var ran := Serve(env, entries, calls);
            && Whole(ran.log, ran.entries) && |entries| <= |ran.entries|
            && forall c :: c in calls ==> Answers(ran.log, c, true) || Answers(ran.log, c, false)
    decreases calls
  {
    if calls != [] {
      var (reply, after, log) := Answer(env, entries, calls[0]);
      var rest := Serve(env, after, calls[1..]);
      var ran := Serve(env, entries, calls);
      NothingSkipped(env, entries, calls[0]);
      EveryFrameRight(env, entries, calls[0]);
      ServeWhole(env, after, calls[1..]);
      WholeThen(log, after, rest.log, rest.entries);
      forall c | c in calls ensures Answers(ran.log, c, true) || Answers(ran.log, c, false) {
        if c == calls[0] {
          assert Replied(c, Reaches(env, entries, c).Some?, reply) in ran.log;
        } else {
          assert Answers(rest.log, c, true) || Answers(rest.log, c, false);
        }
      }
    }
  }

  // What an id names.

  /** Between `entries` and `after`, an issued id is new and its object stays at it; a lookup finds what
      the id named before, and never what it does not name after. */
  ghost predicate LineNamed(entries: seq<Receiver>, line: Line, after: seq<Receiver>) {
    match line
    case Issued(id, x) => |entries| < id && Get(after, id) == Some(x)
    case Resolved(HandleId(id), found) =>
      && (found.Some? ==> found == Get(after, id))
      && (Get(entries, id).Some? ==> found == Get(entries, id))
    case _ => true
  }

  /** A later id is another one, and a later lookup of an issued id finds its object. */
  ghost predicate InOrder(earlier: Line, later: Line) {
    earlier.Issued? ==>
      && (later.Issued? ==> earlier.id < later.id)
      && (later.Resolved? && later.target == HandleId(earlier.id) ==> later.found == Some(earlier.x))
  }

  ghost predicate Named(entries: seq<Receiver>, log: seq<Line>, after: seq<Receiver>) {
    && entries <= after
    && (forall i :: 0 <= i < |log| ==> LineNamed(entries, log[i], after))
    && (forall i, j :: 0 <= i < j < |log| ==> InOrder(log[i], log[j]))
  }

  lemma NamedThen(entries: seq<Receiver>, log: seq<Line>, mid: seq<Receiver>, log': seq<Line>, after: seq<Receiver>)
    requires Named(entries, log, mid) && Named(mid, log', after)
    ensures Named(entries, log + log', after)
  {
    var both := log + log';
    forall i | 0 <= i < |both| ensures LineNamed(entries, both[i], after) {
      assert if i < |log| then LineNamed(entries, log[i], mid) else LineNamed(mid, log'[i - |log|], after);
    }
    forall i, j | 0 <= i < j < |both| ensures InOrder(both[i], both[j]) {
      if i < |log| <= j {
        assert LineNamed(entries, log[i], mid) && LineNamed(mid, log'[j - |log|], after);
      } else if j < |log| {
        assert InOrder(log[i], log[j]);
      } else {
        assert InOrder(log'[i - |log|], log'[j - |log|]);
      }
    }
  }

  lemma LookupNamed(entries: seq<Receiver>, env: Env, target: Target)
    ensures Named(entries, [Resolved(target, Resolve(env, entries, target))], entries)
  {
  }

  /** In every execution, every Call at every nesting is answered by its own frame alone, and every
      Handle id issued before or during it keeps naming its object. */
  lemma {:induction false} EveryFrameRight(env: Env, entries: seq<Receiver>, call: Call)
    ensures var (reply, after, log) := Answer(env, entries, call);
            && (forall line :: line in log ==> Rightly(line))
            && log != [] && log[|log| - 1] == Replied(call, Reaches(env, entries, call).Some?, reply)
            && Named(entries, log, after)
    decreases call
  {
    var (reply, after, log) := Answer(env, entries, call);
    var asked := [Resolved(call.target, Resolve(env, entries, call.target))];
    LookupNamed(entries, env, call.target);
    if Reaches(env, entries, call).Some? {
      BrokenIsOwn(env, entries, call.acts, call.blockGiven);
      PerformRight(env, entries, call.acts, call.blockGiven);
      NamedThen(entries, asked, entries, Perform(env, entries, call.acts, call.blockGiven).log, after);
    }
    NamedThen(entries, log[..|log| - 1], after, log[|log| - 1..], after);
    assert log == log[..|log| - 1] + log[|log| - 1..];
  }

  lemma {:induction false} PerformRight(env: Env, entries: seq<Receiver>, acts: seq<Act>, blockGiven: bool)
    ensures var ran := Perform(env, entries, acts, blockGiven);
            (forall line :: line in ran.log ==> Rightly(line)) && Named(entries, ran.log, ran.entries)
    decreases acts
  {
    if acts != [] {
      var first := PerformOne(env, entries, acts[0], blockGiven);
      var rest := Perform(env, first.entries, acts[1..], blockGiven);
      PerformOneRight(env, entries, acts[0], blockGiven);
      PerformRight(env, first.entries, acts[1..], blockGiven);
      NamedThen(entries, first.log, first.entries, rest.log, rest.entries);
    }
  }

  lemma {:induction false} PerformOneRight(env: Env, entries: seq<Receiver>, act: Act, blockGiven: bool)
    ensures var ran := PerformOne(env, entries, act, blockGiven);
            (forall line :: line in ran.log ==> Rightly(line)) && Named(entries, ran.log, ran.entries)
    decreases act
  {
    if act.Yields? && blockGiven {
      ServeRight(env, entries, act.calls);
    }
  }

  lemma {:induction false} ServeRight(env: Env, entries: seq<Receiver>, calls: seq<Call>)
    ensures var ran := Serve(env, entries, calls);
            (forall line :: line in ran.log ==> Rightly(line)) && Named(entries, ran.log, ran.entries)
    decreases calls
  {
    if calls != [] {
      var (_, after, log) := Answer(env, entries, calls[0]);
      var rest := Serve(env, after, calls[1..]);
      EveryFrameRight(env, entries, calls[0]);
      ServeRight(env, after, calls[1..]);
      NamedThen(entries, log, after, rest.log, rest.entries);
    }
  }

  // What a target is.

  /** The first binding of `path`. */
  ghost predicate FirstAt(bindings: seq<(string, Receiver)>, i: nat, path: string, x: Receiver) {
    i < |bindings| && bindings[i] == (path, x) && forall j :: 0 <= j < i ==> bindings[j].0 != path
  }

  lemma {:induction false} FindExactly(bindings: seq<(string, Receiver)>, path: string, x: Receiver)
    ensures Find(bindings, path) == Some(x) <==> exists i :: FirstAt(bindings, i, path, x)
    ensures Find(bindings, path).None? <==> forall j :: 0 <= j < |bindings| ==> bindings[j].0 != path
  {
    if bindings != [] {
      var rest := bindings[1..];
      FindExactly(rest, path, x);
      assert forall j :: 0 <= j < |rest| ==> rest[j] == bindings[j + 1];
      assert FirstAt(bindings, 0, path, x) <==> bindings[0] == (path, x);
      if bindings[0].0 != path {
        forall i: nat ensures FirstAt(bindings, i + 1, path, x) <==> FirstAt(rest, i, path, x) {
          assert forall j :: 0 < j <= i && j < |bindings| ==> bindings[j] == rest[j - 1];
        }
        if i: nat :| FirstAt(bindings, i, path, x) {
          assert FirstAt(rest, i - 1, path, x);
        }
      }
    }
  }

  /** A path this invocation resolves is answered ahead of the sealed binding of the same path. */
  lemma {:induction false} ResolvedFirst(env: Env, entries: seq<Receiver>, path: string)
    ensures Resolve(env, entries, Path(path)) == Find(env.resolved + env.catalog, path)
    decreases |env.resolved|
  {
    if env.resolved == [] {
      assert env.resolved + env.catalog == env.catalog;
    } else {
      ResolvedFirst(env.(resolved := env.resolved[1..]), entries, path);
      assert (env.resolved + env.catalog)[1..] == env.resolved[1..] + env.catalog;
    }
  }

  /** A target stands for an object exactly when it is the first one bound at the path, this
      invocation's ahead of the sealed ones, or the one its id was issued for. */
  ghost predicate StandsFor(env: Env, entries: seq<Receiver>, target: Target, x: Receiver) {
    match target
    case Path(path) => exists i :: FirstAt(env.resolved + env.catalog, i, path, x)
    case HandleId(id) => 1 <= id <= |entries| && entries[id - 1] == x
  }

  /** A Call runs its receiver's acts exactly when its target stands for an object that does not hide
      the method; otherwise it is answered Undefined and changes nothing. */
  lemma ReachesExactly(env: Env, entries: seq<Receiver>, call: Call)
    ensures (exists x: Receiver :: StandsFor(env, entries, call.target, x) && (x, call.verb) !in env.hidden) <==>
            Replied(call, true, Answer(env, entries, call).0) in Answer(env, entries, call).2
    ensures !(exists x: Receiver :: StandsFor(env, entries, call.target, x) && (x, call.verb) !in env.hidden) ==>
              && Answer(env, entries, call).0 == Faulted(Fault(Undefined, ""))
              && Answer(env, entries, call).1 == entries
  {
    var found := Resolve(env, entries, call.target);
    forall x: Receiver ensures found == Some(x) <==> StandsFor(env, entries, call.target, x) {
      if call.target.Path? {
        ResolvedFirst(env, entries, call.target.path);
        FindExactly(env.resolved + env.catalog, call.target.path, x);
      }
    }
    NothingSkipped(env, entries, call);
    if found.Some? {
      assert StandsFor(env, entries, call.target, found.value);
    }
  }

  /** An id names the one object it was issued for, at every nesting and from then on: at the end of
      the execution that issued it, wherever in it the issue was, and in every lookup that follows the
      issue, by the guest's Calls and the receivers alike; and one issued before the execution does so
      throughout. */
  lemma HandleKeepsNaming(env: Env, entries: seq<Receiver>, call: Call, id: nat, x: Receiver)
    ensures var (_, after, log) := Answer(env, entries, call);
            && (Get(entries, id) == Some(x) ==>
                  && Get(after, id) == Some(x)
                  && forall j :: 0 <= j < |log| && log[j].Resolved? && log[j].target == HandleId(id) ==>
                       log[j].found == Some(x))
            && (forall i :: 0 <= i < |log| && log[i] == Issued(id, x) ==>
                  && Get(entries, id).None? && Get(after, id) == Some(x)
                  && forall j :: i < j < |log| ==>
                       && !(log[j].Issued? && log[j].id == id)
                       && (log[j].Resolved? && log[j].target == HandleId(id) ==> log[j].found == Some(x)))
  {
    var (_, after, log) := Answer(env, entries, call);
    EveryFrameRight(env, entries, call);
    assert forall j :: 0 <= j < |log| ==> LineNamed(entries, log[j], after);
    assert forall i, j :: 0 <= i < j < |log| ==> InOrder(log[i], log[j]);
  }

  /** A receiver that stops at its first failed yield and hands the error up tells the guest: the exit
      the block took, the block's own failure, its own argument's, or that the exchange went wrong. */
  lemma PropagatedYield(env: Env, entries: seq<Receiver>, call: Call, last: nat)
    requires Reaches(env, entries, call).Some? && call.blockGiven && last == |call.acts| - 1
    requires forall i :: 0 <= i < last && Outcome(call.acts[i]).Some? ==> Outcome(call.acts[i]).value.Success?
    requires Outcome(call.acts[last]).Some? && Outcome(call.acts[last]).value.Failure?
    requires call.result == Failure(FaultOf(Outcome(call.acts[last]).value.error))
    ensures var reply, act := Answer(env, entries, call).0, call.acts[last];
            && (act.Refuses? ==> reply == Faulted(Fault(Runtime, act.message)))
            && (act.Yields? ==>
                  && (act.reply.BlockBreak? ==> reply == Break)
                  && (act.reply.BlockError? ==>
                        reply == Faulted(Fault(Block, act.reply.name + ": " + act.reply.message)))
                  && (act.reply.BlockUnsupported? || act.reply.Trapped? ==>
                        reply.Faulted? && reply.fault.kind == Internal))
            && (act.Refuses? || (act.Yields? && !act.reply.BlockOk?))
  {
    BrokenIsOwn(env, entries, call.acts, call.blockGiven);
    assert forall i :: 0 <= i < last && call.acts[i].Yields? ==> Outcome(call.acts[i]).Some?;
  }

  // The handler, in place.

  class HandleTable {
    var entries: seq<Receiver>

    constructor ()
      ensures entries == []
    {
      entries := [];
    }

    method AllocHandle(x: Receiver) returns (id: Option<nat>)
      modifies this
      ensures (entries, id) == Alloc(old(entries), x)
      ensures if |old(entries)| < 0x7fff_ffff
              then entries == old(entries) + [x] && id == Some(|entries|)
              else entries == old(entries) && id == None
    {
      if |entries| >= MAX_HANDLE_ID {
        return None;
      }
      entries := entries + [x];
      return Some(|entries|);
    }

    method Resolve(id: nat) returns (x: Option<Receiver>)
      ensures x == Get(entries, id)
      ensures x == if 1 <= id <= |entries| then Some(entries[id - 1]) else None
    {
      if id == 0 || id > |entries| {
        return None;
      }
      return Some(entries[id - 1]);
    }
  }

  /** The stand-in for the guest block of one dispatch frame. */
  class Yielder {
    var broken: bool

    constructor ()
      ensures !broken
    {
      broken := false;
    }

    /** What the receiver is handed, and whether the frame is to answer a break. */
    method TakeReply(reply: YieldReply) returns (r: Result<Body, YieldError>)
      modifies this
      ensures r == CallPayload(reply) && broken == (old(broken) || reply.BlockBreak?)
      ensures reply.BlockOk? ==> r == Success(reply.body)
      ensures reply.BlockBreak? ==> r == Failure(Broke)
      ensures reply.BlockError? ==> r == Failure(Failed(reply.name, reply.message))
      ensures reply.BlockUnsupported? ==> r.Failure? && r.error.Unsupported?
      ensures reply.Trapped? ==> r.Failure? && r.error.Aborted?
    {
      match reply {
        case BlockOk(body) => return Success(body);
        case BlockBreak =>
          broken := true;
          return Failure(Broke);
        case BlockError(name, message) => return Failure(Failed(name, message));
        case BlockUnsupported =>
          return Failure(Unsupported("the Sandbox runtime does not support yielding to a block"));
        case Trapped => return Failure(Aborted("yield re-entry trapped"));
      }
    }
  }

  class CatalogHandler {
    const env: Env
    const handles: HandleTable

    constructor (env: Env, handles: HandleTable)
      ensures this.env == env && this.handles == handles
    {
      this.env, this.handles := env, handles;
    }

    /** Never `None`: every failure is an answer. */
    method DispatchCall(call: Call) returns (reply: Option<Reply>)
      modifies handles
      ensures reply.Some? && reply.value == Answer(env, old(handles.entries), call).0
      ensures handles.entries == Answer(env, old(handles.entries), call).1
    {
      var answer := AnswerCall(call);
      reply := Some(answer);
    }

    method AnswerCall(call: Call) returns (reply: Reply)
      modifies handles
      ensures reply == Answer(env, old(handles.entries), call).0
      ensures handles.entries == Answer(env, old(handles.entries), call).1
      decreases call
    {
      var receiver := Resolve(env, handles.entries, call.target);
      if receiver.None? || (receiver.value, call.verb) in env.hidden {
        return Faulted(Fault(Undefined, ""));
      }
      var block: Yielder? := null;
      if call.blockGiven {
        block := new Yielder();
      }
      BrokenIsOwn(env, handles.entries, call.acts, call.blockGiven);
      RunReceiver(call.acts, block);
      if block != null && block.broken {
        return Break;
      }
      match call.result {
        case Success(body) => return Answered(body);
        case Failure(fault) => return Faulted(fault);
      }
    }

    method RunReceiver(acts: seq<Act>, block: Yielder?)
      modifies handles, block
      ensures var ran := Perform(env, old(handles.entries), acts, block != null);
              && handles.entries == ran.entries
              && (block != null ==> (block.broken <==> old(block.broken) || ran.broken))
      decreases acts
    {
      if acts != [] {
        match acts[0] {
          case Refuses(_) =>
          case Allocs(x) => var _ := handles.AllocHandle(x);
          case Looks(id) => var _ := handles.Resolve(id);
          case Yields(calls, reply) =>
            if block != null {
              RunBlock(calls);
              var _ := block.TakeReply(reply);
            }
        }
        RunReceiver(acts[1..], block);
      }
    }

    method RunBlock(calls: seq<Call>)
      modifies handles
      ensures handles.entries == Serve(env, old(handles.entries), calls).entries
      decreases calls
    {
      if calls != [] {
        var _ := AnswerCall(calls[0]);
        RunBlock(calls[1..]);
      }
    }
  }
}
