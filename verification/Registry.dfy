/** Installed Extensions: their declared dependencies and the objects their providers make, from
    `crates/kobako/src/extension.rs`. */
module Extensions {
  import opened Wrappers

  type ProviderId = nat

  datatype Provider = Static(x: nat) | PerInvocation(id: ProviderId) | Fillable
  datatype Backend = Backend(path: string, provider: Provider)
  datatype Extension = Extension(name: string, dependsOn: seq<string>, backend: Option<Backend>)

  /** Every declared dependency is installed, in any order and cycles included. */
  predicate DepsMet(entries: seq<Extension>) {
    forall e :: e in entries ==> forall d :: d in e.dependsOn ==> exists p :: p in entries && p.name == d
  }

  type Object(==, !new) = nat

  /** The `i`th Extension needs one named `d`, and none is. */
  ghost predicate Dangling(entries: seq<Extension>, i: nat, d: string) {
    && i < |entries| && d in entries[i].dependsOn
    && forall j :: 0 <= j < |entries| ==> entries[j].name != d
  }

  lemma DepsMetExactly(entries: seq<Extension>)
    ensures DepsMet(entries) <==> forall i, d :: !Dangling(entries, i, d)
  {
    if DepsMet(entries) {
      forall i: nat, d ensures !Dangling(entries, i, d) {
        if i < |entries| && d in entries[i].dependsOn {
          assert entries[i] in entries;
          var p :| p in entries && p.name == d;
        }
      }
    } else {
      var e :| e in entries && !forall d :: d in e.dependsOn ==> exists p :: p in entries && p.name == d;
      var d :| d in e.dependsOn && !exists p :: p in entries && p.name == d;
      var i :| 0 <= i < |entries| && entries[i] == e;
      assert forall j :: 0 <= j < |entries| ==> entries[j] in entries;
      assert Dangling(entries, i, d);
    }
  }

  /** What each provider call of one `resolve` answers, by the provider called and the number of the
      call: any object, one that another call answered too included. */
  type Answers = (ProviderId, nat) -> Object

  /** The backends a provider is asked for, in order. */
  function Asked(entries: seq<Extension>): seq<(string, ProviderId)> {
    if entries == [] then []
    else
      var e := entries[|entries| - 1];
      Asked(entries[..|entries| - 1]) +
      (if e.backend.Some? && e.backend.value.provider.PerInvocation?
       then [(e.backend.value.path, e.backend.value.provider.id)] else [])
  }

  /** The backends asked for are exactly those filled in by each invocation, in the order installed. */
  lemma {:induction false} AskedExactly(entries: seq<Extension>, path: string, id: ProviderId)
    ensures (path, id) in Asked(entries) <==>
            exists e :: e in entries && e.backend == Some(Backend(path, PerInvocation(id)))
    ensures forall k :: 0 <= k <= |entries| ==> Asked(entries[..k]) <= Asked(entries)
  {
    if entries != [] {
      var before, e := entries[..|entries| - 1], entries[|entries| - 1];
      AskedExactly(before, path, id);
      assert entries == before + [e];
      forall k | 0 <= k <= |entries| ensures Asked(entries[..k]) <= Asked(entries) {
        if k < |entries| {
          assert before[..k] == entries[..k];
        } else {
          assert entries[..k] == entries;
        }
      }
    }
  }

  ghost predicate NoRepeats<T>(s: seq<T>) { forall i, j :: 0 <= i < j < |s| ==> s[i] != s[j] }

  class Extensions {
    var entries: seq<Extension>
    var asserted: bool

    constructor ()
      ensures entries == [] && !asserted
    {
      entries, asserted := [], false;
    }

    /** Once a set of dependencies was found met it is not looked at again. */
    method AssertDependencies() returns (r: Result<(), string>)
      requires asserted ==> DepsMet(entries)
      modifies this`asserted
      ensures asserted <==> DepsMet(entries)
      ensures r.Success? <==> forall i, d :: !Dangling(entries, i, d)
    {
      DepsMetExactly(entries);
      if asserted {
        return Success(());
      }
      var i := 0;
      while i < |entries|
        invariant 0 <= i <= |entries| && !asserted
        invariant forall e :: e in entries[..i] ==>
                    forall d :: d in e.dependsOn ==> exists p :: p in entries && p.name == d
      {
        var needs := entries[i].dependsOn;
        var j := 0;
        while j < |needs|
          invariant 0 <= j <= |needs|
          invariant forall k :: 0 <= k < j ==> exists p :: p in entries && p.name == needs[k]
        {
          if !exists p :: p in entries && p.name == needs[j] {
            assert entries[i] in entries && needs[j] in needs;
            return Failure("depends on an Extension which was not installed");
          }
          j := j + 1;
        }
        assert entries[..i + 1] == entries[..i] + [entries[i]];
        i := i + 1;
      }
      assert entries[..i] == entries;
      asserted := true;
      return Success(());
    }

    /** Each provider asked for is called once, and its one object serves every path it backs. */
    method Resolve(answers: Answers) returns (resolved: seq<(string, Object)>, calls: seq<ProviderId>)
      ensures NoRepeats(calls)
      ensures forall id :: id in calls <==> exists a :: a in Asked(entries) && a.1 == id
      ensures Served(Asked(entries), resolved, calls, answers)
    {
      resolved, calls := [], [];
      var i := 0;
      ghost var asked := [];
      while i < |entries|
        invariant 0 <= i <= |entries|
        invariant asked == Asked(entries[..i])
        invariant NoRepeats(calls)
        invariant forall id :: id in calls ==> exists a :: a in asked && a.1 == id
        invariant Served(asked, resolved, calls, answers)
      {
        assert entries[..i + 1][..i] == entries[..i];
        var backend := entries[i].backend;
        if backend.Some? && backend.value.provider.PerInvocation? {
          var path, id := backend.value.path, backend.value.provider.id;
          if id !in calls {
            ServedAfterCall(asked, resolved, calls, answers, id);
            calls := calls + [id];
          }
          asked := asked + [(path, id)];
          resolved := resolved + [(path, answers(id, IndexOf(calls, id)))];
          assert asked[|asked| - 1] == (path, id) && forall a :: a in asked[..|asked| - 1] ==> a in asked;
        }
        i := i + 1;
      }
      assert entries[..i] == entries;
    }
  }

  /** Each backend asked for so far has the object its provider's one call answered. */
  ghost predicate Served(
      asked: seq<(string, ProviderId)>, resolved: seq<(string, Object)>, calls: seq<ProviderId>, answers: Answers) {
    && |resolved| == |asked|
    && forall k :: 0 <= k < |asked| ==>
         asked[k].1 in calls && resolved[k] == (asked[k].0, answers(asked[k].1, IndexOf(calls, asked[k].1)))
  }

  ghost predicate Called(calls: seq<ProviderId>, n: nat, id: ProviderId) { n < |calls| && calls[n] == id }

  /** Provider identity is resource identity: paths with one provider share the object of its one call,
      and paths with two providers have the objects of two calls, equal only if these answered so. */
  lemma SharedExactly(
      asked: seq<(string, ProviderId)>, resolved: seq<(string, Object)>, calls: seq<ProviderId>, answers: Answers,
      i: nat, j: nat)
    requires Served(asked, resolved, calls, answers) && NoRepeats(calls) && i < |asked| && j < |asked|
    ensures asked[i].1 == asked[j].1 ==> resolved[i].1 == resolved[j].1
    ensures asked[i].1 != asked[j].1 ==>
              exists m, n :: m != n && Called(calls, m, asked[i].1) && Called(calls, n, asked[j].1) &&
                (forall k :: Called(calls, k, asked[i].1) ==> k == m) &&
                (forall k :: Called(calls, k, asked[j].1) ==> k == n) &&
                (resolved[i].1 == resolved[j].1 <==> answers(asked[i].1, m) == answers(asked[j].1, n))
  {
    var m, n := IndexOf(calls, asked[i].1), IndexOf(calls, asked[j].1);
    assert Called(calls, m, asked[i].1) && Called(calls, n, asked[j].1);
  }

  function IndexOf(s: seq<ProviderId>, x: ProviderId): (at: nat)
    ensures x in s ==> at < |s| && s[at] == x
  {
    if s == [] || s[0] == x then 0 else 1 + IndexOf(s[1..], x)
  }

  lemma {:induction false} IndexStays(s: seq<ProviderId>, x: ProviderId, y: ProviderId)
    requires x in s
    ensures IndexOf(s + [y], x) == IndexOf(s, x)
  {
    if s[0] != x {
      assert (s + [y])[1..] == s[1..] + [y];
      IndexStays(s[1..], x, y);
    }
  }

  lemma ServedAfterCall(
      asked: seq<(string, ProviderId)>, resolved: seq<(string, Object)>, calls: seq<ProviderId>, answers: Answers,
      id: ProviderId)
    requires Served(asked, resolved, calls, answers)
    ensures Served(asked, resolved, calls + [id], answers)
  {
    forall k | 0 <= k < |asked|
      ensures IndexOf(calls + [id], asked[k].1) == IndexOf(calls, asked[k].1)
    {
      IndexStays(calls, asked[k].1, id);
    }
  }
}

/** The seal: `Registry` and `begin_invocation` of `crates/kobako/src/sandbox.rs`, over every order of
    registrations and any number of concurrent first invocations.

    Registering takes the Sandbox exclusively, so it runs only while no invocation is under way; an
    invocation checks the dependencies, then seals under the registry's mutex. */
module Registry {
  import opened Wrappers
  import opened Snippets
  import opened Extensions
  import Catalog

  datatype Registrations = Registrations(bindings: Catalog.Bindings<nat>, snippets: Entries)

  datatype Registry = Open(tables: Registrations) | Sealed(tables: Registrations)

  /** What the engine does when it is asked to compile. */
  datatype Engine = Codes(codes: seq<Bytes>) | Nothing | Panics

  /** The tables a seal leaves, and whether it asked the engine. */
  function Seal(reg: Registry, compile: bool, engine: Engine): (Registry, bool) {
    if reg.Sealed? then (reg, false)
    else
      var asks := compile && HasSource(reg.tables.snippets);
      var snippets :=
        if asks && engine.Codes? then Compiled(reg.tables.snippets, engine.codes) else reg.tables.snippets;
      (Sealed(reg.tables.(snippets := snippets)), asks)
  }

  /** The registry's own cell, which the mutex guards. */
  class RegistryCell {
    var reg: Registry

    constructor ()
      ensures reg == Open(Registrations([], []))
    {
      reg := Open(Registrations([], []));
    }

    /** Seals however the compile ends; a panic of the engine's comes back beside the tables. */
    method SealTables(compile: bool, engine: Engine) returns (tables: Registrations, panicked: bool)
      modifies this
      ensures reg == Seal(old(reg), compile, engine).0 && reg.Sealed? && tables == reg.tables
      ensures panicked <==> Seal(old(reg), compile, engine).1 && engine.Panics?
    {
      panicked := false;
      if reg.Open? {
        var taken := reg.tables;
        if compile && HasSource(taken.snippets) {
          match engine {
            case Panics => panicked := true;
            case Nothing =>
            case Codes(codes) =>
              var table := new SnippetTable();
              table.entries := taken.snippets;
              table.PutInPlace(codes);
              taken := taken.(snippets := table.entries);
          }
        }
        reg := Sealed(taken);
      }
      tables := reg.tables;
    }
  }

  type ThreadId = nat

  datatype Answer = Ran(tables: Registrations) | Panicked | Unmet

  datatype Pc = Resting | Checked(met: bool) | Answered(answer: Answer)

  /** One time the engine was asked: whether the dependencies were met, the table it was shown, and
      what it did. */
  datatype Compile = Compile(met: bool, shown: Entries, engine: Engine)

  datatype State = State(
    reg: Registry, exts: seq<Extension>, asserted: bool, pc: map<ThreadId, Pc>, compiles: seq<Compile>)

  datatype Event =
    | Bind(path: string, x: nat)
    | Preload(name: string, body: string)
    | PreloadBinary(code: Bytes)
    | Install(ext: Extension, source: string)
    | Check(t: ThreadId)
    | SealNow(t: ThreadId, engine: Engine)
    | Return(t: ThreadId)

  ghost predicate AllRest(s: State) { forall t :: t in s.pc ==> s.pc[t].Resting? }

  ghost predicate Enabled(s: State, ev: Event) {
    match ev
    case Check(t) => t in s.pc && s.pc[t].Resting?
    case SealNow(t, _) => t in s.pc && s.pc[t].Checked?
    case Return(t) => t in s.pc && s.pc[t].Answered?
    case _ => AllRest(s)
  }

  function Registered(s: State, tables: Registrations): State { s.(reg := Open(tables)) }

  /** What stands for every provider that is yet to fill its backend in. */
  const UNRESOLVED := 0

  function ObjectOf(provider: Provider): nat { if provider.Static? then provider.x else UNRESOLVED }

  /** A refused bind leaves the snippet registered and the Extension not installed. */
  function Installed(s: State, ext: Extension, source: string): State
    requires s.reg.Open?
  {
    var r := RegisterSource(s.reg.tables.snippets, ext.name, source);
    if r.Failure? then s
    else
      var tables := s.reg.tables.(snippets := r.value);
      if ext.backend.None? then Registered(s, tables).(exts := s.exts + [ext])
      else
        var bindings := Catalog.BindOne(tables.bindings, ext.backend.value.path, ObjectOf(ext.backend.value.provider));
        if bindings == tables.bindings then Registered(s, tables)
        else Registered(s, tables.(bindings := bindings)).(exts := s.exts + [ext])
  }

  ghost function Apply(s: State, ev: Event): State
    requires Enabled(s, ev)
  {
    match ev
    case Check(t) =>
      var met := s.asserted || DepsMet(s.exts);
      s.(asserted := met, pc := s.pc[t := Checked(met)])
    case SealNow(t, engine) =>
      var met := s.pc[t].met;
      var (reg, asked) := Seal(s.reg, met, engine);
      var answer := if asked && engine.Panics? then Panicked else if !met then Unmet else Ran(reg.tables);
      s.(reg := reg, pc := s.pc[t := Answered(answer)],
         compiles := s.compiles + (if asked then [Compile(DepsMet(s.exts), s.reg.tables.snippets, engine)] else []))
    case Return(t) => s.(pc := s.pc[t := Resting])
    case _ =>
      if s.reg.Sealed? then s
      else
        var tables := s.reg.tables;
        match ev
        case Bind(path, x) => Registered(s, tables.(bindings := Catalog.BindOne(tables.bindings, path, x)))
        case Preload(name, body) =>
          var r := RegisterSource(tables.snippets, name, body);
          if r.Success? then Registered(s, tables.(snippets := r.value)) else s
        case PreloadBinary(code) => Registered(s, tables.(snippets := tables.snippets + [Bytecode(code)]))
        case Install(ext, source) => Installed(s, ext, source)
        case _ => s
  }

  ghost predicate Initial(s: State) {
    && s.reg == Open(Registrations([], [])) && s.exts == [] && !s.asserted && s.compiles == []
    && AllRest(s)
  }

  ghost predicate Run(states: seq<State>, events: seq<Event>) {
    && |states| == |events| + 1
    && Initial(states[0])
    && forall i {:trigger events[i]} :: 0 <= i < |events| ==>
         Enabled(states[i], events[i]) && states[i + 1] == Apply(states[i], events[i])
  }

  /** The table `c` left: its k-th source its k-th bytecode, or as shown when nothing came back. */
  ghost predicate Leaves(c: Compile, table: Entries) {
    table == if c.engine.Codes? then Compiled(c.shown, c.engine.codes) else c.shown
  }

  /** While open nothing was compiled and every invocation under way is yet to seal; once sealed the
      engine was asked at most once. Nothing under way trusts an unmet dependency. */
  ghost predicate Inv(s: State) {
    && (s.asserted ==> DepsMet(s.exts))
    && (s.reg.Open? ==> s.compiles == [])
    && (s.reg.Open? && s.asserted ==> !AllRest(s))
    && (forall t :: t in s.pc && s.pc[t].Checked? ==> (s.pc[t].met <==> DepsMet(s.exts)) && (s.pc[t].met ==> s.asserted))
    && (forall t :: t in s.pc && s.pc[t].Answered? ==> s.reg.Sealed?)
    && (forall t :: t in s.pc && s.pc[t].Answered? && s.pc[t].answer.Ran? ==>
          s.asserted && s.pc[t].answer.tables == s.reg.tables)
    && |s.compiles| <= 1
    && (forall c :: c in s.compiles ==> c.met && Leaves(c, s.reg.tables.snippets))
    && DistinctNames(s.reg.tables.snippets)
    && Catalog.Antichain(s.reg.tables.bindings)
  }

  lemma RegisterInv(s: State, ev: Event)
    requires Inv(s) && Enabled(s, ev) && (ev.Bind? || ev.Preload? || ev.PreloadBinary?)
    ensures Inv(Apply(s, ev))
  {
    if ev.Bind? {
      Catalog.BindKeepsAntichain(s.reg.tables.bindings, ev.path, ev.x);
    }
  }

  lemma InstallInv(s: State, ev: Event)
    requires Inv(s) && Enabled(s, ev) && ev.Install?
    ensures Inv(Apply(s, ev))
  {
    if ev.ext.backend.Some? {
      var backend := ev.ext.backend.value;
      Catalog.BindKeepsAntichain(s.reg.tables.bindings, backend.path, ObjectOf(backend.provider));
    }
  }

  lemma CheckInv(s: State, ev: Event)
    requires Inv(s) && Enabled(s, ev) && (ev.Check? || ev.Return?)
    ensures Inv(Apply(s, ev))
  {
    var s' := Apply(s, ev);
    if ev.Check? {
      assert !s'.pc[ev.t].Resting?;
    } else {
      assert s.reg.Sealed?;
    }
  }

  lemma SealInv(s: State, ev: Event)
    requires Inv(s) && Enabled(s, ev) && ev.SealNow?
    ensures Inv(Apply(s, ev))
  {
  }

  lemma InvStep(s: State, ev: Event)
    requires Inv(s) && Enabled(s, ev)
    ensures Inv(Apply(s, ev))
  {
    match ev {
      case Install(_, _) => InstallInv(s, ev);
      case SealNow(_, _) => SealInv(s, ev);
      case Check(_) => CheckInv(s, ev);
      case Return(_) => CheckInv(s, ev);
      case _ => RegisterInv(s, ev);
    }
  }

  lemma {:induction false} Reachable(states: seq<State>, events: seq<Event>, i: nat)
    requires Run(states, events) && i < |states|
    ensures Inv(states[i])
  {
    if i > 0 {
      Reachable(states, events, i - 1);
      InvStep(states[i - 1], events[i - 1]);
    }
  }

  lemma {:induction false} SealedForever(states: seq<State>, events: seq<Event>, i: nat, j: nat)
    requires Run(states, events) && i <= j < |states| && states[i].reg.Sealed?
    ensures states[j].reg == states[i].reg && states[j].compiles == states[i].compiles
    decreases j
  {
    if i < j {
      SealedForever(states, events, i, j - 1);
      var ev := events[j - 1];
    }
  }

  /** Every invocation of every run that runs at all runs on one table. */
  lemma OneTable(states: seq<State>, events: seq<Event>, i: nat, j: nat, t: ThreadId, u: ThreadId)
    requires Run(states, events) && i <= j < |states|
    requires t in states[i].pc && states[i].pc[t].Answered? && states[i].pc[t].answer.Ran?
    requires u in states[j].pc && states[j].pc[u].Answered? && states[j].pc[u].answer.Ran?
    ensures states[i].pc[t].answer == states[j].pc[u].answer
  {
    Reachable(states, events, i);
    Reachable(states, events, j);
    SealedForever(states, events, i, j);
  }

  /** The engine is asked at most once in a run, never with a dependency unmet, and the table it leaves
      is the one it was shown with its k-th source its k-th bytecode; a panic leaves it as it was. */
  lemma CompiledOnce(states: seq<State>, events: seq<Event>, i: nat)
    requires Run(states, events) && i < |states|
    ensures var s := states[i];
            && |s.compiles| <= 1
            && (forall c :: c in s.compiles ==>
                  s.reg.Sealed? && c.met && Leaves(c, s.reg.tables.snippets))
  {
    Reachable(states, events, i);
  }

  // What each event comes to.

  ghost predicate NameFree(snippets: Entries, name: string) {
    Catalog.IsConstantName(name) && forall e :: e in snippets && e.Source? ==> e.name != name
  }

  lemma RegistersExactly(snippets: Entries, name: string, body: string)
    ensures RegisterSource(snippets, name, body).Success? <==> NameFree(snippets, name)
    ensures NameFree(snippets, name) ==> RegisterSource(snippets, name, body).value == snippets + [Source(name, body)]
  {
    if i :| 0 <= i < |snippets| && Named(snippets[i], name) {
      assert snippets[i] in snippets;
    }
  }

  /** An Extension is taken in while the registry is open, its name is free and its path may be bound. */
  ghost predicate Accepted(s: State, ext: Extension) {
    && s.reg.Open? && NameFree(s.reg.tables.snippets, ext.name)
    && (ext.backend.Some? ==> Catalog.Bindable(s.reg.tables.bindings, ext.backend.value.path))
  }

  /** What a registration leaves: each table as it was or with the one entry added last. */
  ghost predicate Registers(s: State, ev: Event, s': State) {
    var tables := s.reg.tables;
    if s.reg.Sealed? then s' == s
    else
      && s'.reg.Open? && s'.pc == s.pc && s'.compiles == s.compiles && s'.asserted == s.asserted
      && match ev
         case Bind(path, x) =>
           && s'.reg.tables.bindings == tables.bindings + (if Catalog.Bindable(tables.bindings, path) then [(path, x)] else [])
           && s'.reg.tables.snippets == tables.snippets && s'.exts == s.exts
         case Preload(name, body) =>
           && s'.reg.tables.snippets == tables.snippets + (if NameFree(tables.snippets, name) then [Source(name, body)] else [])
           && s'.reg.tables.bindings == tables.bindings && s'.exts == s.exts
         case PreloadBinary(code) =>
           && s'.reg.tables.snippets == tables.snippets + [Bytecode(code)]
           && s'.reg.tables.bindings == tables.bindings && s'.exts == s.exts
         case Install(ext, source) =>
           && s'.exts == s.exts + (if Accepted(s, ext) then [ext] else [])
           && s'.reg.tables.snippets ==
                tables.snippets + (if NameFree(tables.snippets, ext.name) then [Source(ext.name, source)] else [])
           && s'.reg.tables.bindings ==
                tables.bindings +
                (if ext.backend.Some? && Accepted(s, ext)
                 then [(ext.backend.value.path, ObjectOf(ext.backend.value.provider))] else [])
         case _ => true
  }

  lemma InstallRegisters(s: State, ev: Event)
    requires Inv(s) && Enabled(s, ev) && ev.Install?
    ensures Registers(s, ev, Apply(s, ev))
  {
    if s.reg.Open? {
      RegistersExactly(s.reg.tables.snippets, ev.ext.name, ev.source);
      if ev.ext.backend.Some? {
        var backend := ev.ext.backend.value;
        Catalog.BindKeepsAntichain(s.reg.tables.bindings, backend.path, ObjectOf(backend.provider));
      }
    }
  }

  /** Over every run, a registration that is refused changes nothing it was refused for, and one that is
      taken adds exactly what was asked, last; once sealed none is taken. */
  lemma RegisteredExactly(states: seq<State>, events: seq<Event>, i: nat)
    requires Run(states, events) && i < |events|
    requires events[i].Bind? || events[i].Preload? || events[i].PreloadBinary? || events[i].Install?
    ensures Registers(states[i], events[i], states[i + 1])
  {
    var s, ev := states[i], events[i];
    Reachable(states, events, i);
    if ev.Install? {
      InstallRegisters(s, ev);
    } else if ev.Bind? {
      Catalog.BindKeepsAntichain(s.reg.tables.bindings, ev.path, ev.x);
    } else if ev.Preload? {
      RegistersExactly(s.reg.tables.snippets, ev.name, ev.body);
    }
  }

  /** The first invocation to seal asks the engine exactly when every dependency is installed and a
      source is there to compile; it is told a panic, then an unmet dependency, and else runs on the
      sealed tables. */
  lemma SealsExactly(states: seq<State>, events: seq<Event>, i: nat)
    requires Run(states, events) && i < |events| && events[i].SealNow?
    ensures var s, s', t, engine := states[i], states[i + 1], events[i].t, events[i].engine;
            var met := forall k, d :: !Dangling(s.exts, k, d);
            var asks := s.reg.Open? && met && exists e :: e in s.reg.tables.snippets && e.Source?;
            && s'.reg == Sealed(s.reg.tables.(snippets :=
                 if asks && engine.Codes? then Compiled(s.reg.tables.snippets, engine.codes) else s.reg.tables.snippets))
            && s'.compiles == s.compiles + (if asks then [Compile(true, s.reg.tables.snippets, engine)] else [])
            && s'.exts == s.exts && t in s'.pc
            && s'.pc[t] == Answered(if asks && engine.Panics? then Panicked else if !met then Unmet else Ran(s'.reg.tables))
  {
    var s := states[i];
    Reachable(states, events, i);
    DepsMetExactly(s.exts);
    assert HasSource(s.reg.tables.snippets) <==> exists e :: e in s.reg.tables.snippets && e.Source? by {
      if k :| 0 <= k < |s.reg.tables.snippets| && s.reg.tables.snippets[k].Source? {
        assert s.reg.tables.snippets[k] in s.reg.tables.snippets;
      }
    }
  }

  ghost predicate AcceptedAt(states: seq<State>, events: seq<Event>, k: nat, ext: Extension) {
    k < |events| && k < |states| && events[k].Install? && events[k].ext == ext && Accepted(states[k], ext)
  }

  lemma ExtsGrow(states: seq<State>, events: seq<Event>, i: nat, ext: Extension)
    requires Run(states, events) && i < |events|
    ensures ext in states[i + 1].exts <==> ext in states[i].exts || AcceptedAt(states, events, i, ext)
  {
    if events[i].Install? {
      RegisteredExactly(states, events, i);
    }
  }

  /** The Extensions are exactly those an earlier event installed. */
  lemma {:induction false} ExtsFromEvents(states: seq<State>, events: seq<Event>, i: nat, ext: Extension)
    requires Run(states, events) && i < |states|
    ensures ext in states[i].exts <==> exists k: nat :: k < i && AcceptedAt(states, events, k, ext)
  {
    if i > 0 {
      ExtsFromEvents(states, events, i - 1, ext);
      ExtsGrow(states, events, i - 1, ext);
    }
  }

  /** Whatever an invocation that ran had installed before it, each of its dependencies was too. */
  lemma RanWithDependencies(states: seq<State>, events: seq<Event>, i: nat, t: ThreadId, k: nat, ext: Extension, d: string)
    requires Run(states, events) && i < |states|
    requires t in states[i].pc && states[i].pc[t].Answered? && states[i].pc[t].answer.Ran?
    requires k < i && AcceptedAt(states, events, k, ext) && d in ext.dependsOn
    ensures exists m: nat, other :: m < i && AcceptedAt(states, events, m, other) && other.name == d
  {
    Reachable(states, events, i);
    ExtsFromEvents(states, events, i, ext);
    var other :| other in states[i].exts && other.name == d;
    ExtsFromEvents(states, events, i, other);
  }
}
