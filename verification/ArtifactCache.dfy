/** The on-disk artifact cache of `crates/kobako-wasmtime/src/cache.rs`: one directory that any number
    of processes share, each with any number of threads that store, prune and load, with exits and
    crashes.

    Every system call is one event, and so is every draw from a process's counter of temp serials. An
    inode remembers what its creator set out to store, so that "the final name carries complete bytes"
    can be said of it. A machine crash ends every process, leaves arbitrary bytes in files never
    synced, and leaves each name at any file it ever stood at. */
module ArtifactCache {
  import opened Wrappers

  type Bytes = seq<bv8>

  /** A cache entry's name: `<stem>.cwasm`, `<stem>.tmp<pid>.<serial>`. The stem is the digest and the
      engine key, so it stands for the Guest Binary and the engine that compiles it. */
  datatype Name = Final(stem: string) | Temp(stem: string, pid: nat, serial: nat)

  datatype Inode = Inode(stem: string, full: Bytes, data: Bytes, synced: bool, mtime: int)

  predicate Complete(f: Inode) { f.data == f.full && f.synced }

  const ARTIFACT_TTL := 30 * 24 * 60 * 60

  /** A time before the epoch, or in the future, is never stale. */
  predicate Stale(mtime: int, now: real) {
    mtime >= 0 && now - mtime as real > ARTIFACT_TTL as real
  }

  /** A live process: the id it goes by, its counter of temp serials, and the serials drawn from it
      that no thread has opened a file with yet. Two processes may go by one id, as in two containers
      over one directory. */
  datatype Proc = Proc(pid: nat, next: nat, drawn: set<nat>)

  datatype Writer = Writer(proc: nat, tmp: Name, ino: nat, synced: bool)

  /** A thread that published `keep` and now prunes; `found` is a name whose stat was stale and whose
      unlink is still to come. */
  datatype Pruner = Pruner(proc: nat, keep: Name, found: Option<Name>)

  /** `ever` is every pair of a name and a file it has stood at. */
  datatype State = State(
    procs: map<nat, Proc>,
    dir: map<Name, nat>,
    inodes: seq<Inode>,
    writers: map<nat, Writer>,
    pruners: map<nat, Pruner>,
    loaded: map<nat, nat>,
    ever: set<(Name, nat)>)

  datatype Event =
    | Start(p: nat, pid: nat)
    | Exit(p: nat)
    | Draw(p: nat)
    | Create(w: nat, p: nat, stem: string, serial: nat, full: Bytes, made: int)
    | Write(w: nat, count: nat, at: int)
    | Fsync(w: nat)
    | GiveUp(w: nat)
    | Rename(w: nat)
    | Stat(w: nat, name: Name, now: real)
    | Unlink(w: nat)
    | EndPrune(w: nat)
    | Load(r: nat, stem: string, used: int)
    | Unload(r: nat)
    | Crash(dir: map<Name, nat>, lost: seq<Bytes>)

  ghost predicate Among(dir: map<Name, nat>, ever: set<(Name, nat)>) {
    forall name :: name in dir ==> (name, dir[name]) in ever
  }

  /** The name a `Create` opens. */
  function Opens(s: State, ev: Event): Name
    requires ev.Create? && ev.p in s.procs
  {
    Temp(ev.stem, s.procs[ev.p].pid, ev.serial)
  }

  /** The file a writer writes, while it still does. */
  ghost predicate Writing(s: State, w: nat) {
    w in s.writers && !s.writers[w].synced && s.writers[w].ino < |s.inodes|
  }

  /** `Stat` is a stat whose answer is stale; any other changes nothing. */
  ghost predicate Enabled(s: State, ev: Event) {
    match ev
    case Start(p, _) => p !in s.procs
    case Exit(p) => p in s.procs
    case Draw(p) => p in s.procs
    case Create(w, p, _, serial, full, _) =>
      w !in s.writers && w !in s.pruners && p in s.procs && serial in s.procs[p].drawn && full != []
    case Write(w, count, _) =>
      Writing(s, w) && var f := s.inodes[s.writers[w].ino]; |f.data| + count <= |f.full|
    case Fsync(w) => Writing(s, w) && var f := s.inodes[s.writers[w].ino]; |f.data| == |f.full|
    case GiveUp(w) => w in s.writers
    case Rename(w) => w in s.writers && s.writers[w].synced
    case Stat(w, name, now) =>
      && w in s.pruners && s.pruners[w].found.None? && name != s.pruners[w].keep
      && name in s.dir && s.dir[name] < |s.inodes| && Stale(s.inodes[s.dir[name]].mtime, now)
    case Unlink(w) => w in s.pruners && s.pruners[w].found.Some?
    case EndPrune(w) => w in s.pruners
    case Load(r, stem, _) => r !in s.loaded && Final(stem) in s.dir && s.dir[Final(stem)] < |s.inodes|
    case Unload(r) => r in s.loaded
    case Crash(dir, lost) => Among(dir, s.ever) && |lost| == |s.inodes|
  }

  /** `f` with another `count` bytes of what it is to hold. */
  function Extended(f: Inode, count: nat, at: int): Inode
    requires |f.data| + count <= |f.full|
  {
    f.(data := f.data + f.full[|f.data|..|f.data| + count], mtime := at)
  }

  /** The serial goes into a name whether or not the open succeeds. */
  function Spent(s: State, ev: Event): State
    requires ev.Create? && ev.p in s.procs
  {
    s.(procs := s.procs[ev.p := s.procs[ev.p].(drawn := s.procs[ev.p].drawn - {ev.serial})])
  }

  /** A successful `O_EXCL` open. */
  function Opened(s: State, ev: Event): State
    requires ev.Create? && ev.p in s.procs
  {
    var tmp, ino := Opens(s, ev), |s.inodes|;
    s.(dir := s.dir[tmp := ino],
       inodes := s.inodes + [Inode(ev.stem, ev.full, [], false, ev.made)],
       writers := s.writers[ev.w := Writer(ev.p, tmp, ino, false)],
       ever := s.ever + {(tmp, ino)})
  }

  /** A `renameat`, which fails when the temp name is gone; a thread that published goes on to prune. */
  function Published(s: State, w: nat): State
    requires w in s.writers
  {
    var wr := s.writers[w];
    if wr.tmp !in s.dir then s.(writers := s.writers - {w})
    else
      var name := Final(wr.tmp.stem);
      s.(dir := (s.dir - {wr.tmp})[name := s.dir[wr.tmp]],
         writers := s.writers - {w},
         pruners := s.pruners[w := Pruner(wr.proc, name, None)],
         ever := s.ever + {(name, s.dir[wr.tmp])})
  }

  ghost function Apply(s: State, ev: Event): State
    requires Enabled(s, ev)
  {
    match ev
    case Start(p, pid) => s.(procs := s.procs[p := Proc(pid, 0, {})])
    case Exit(p) =>
      s.(procs := s.procs - {p},
         writers := map w | w in s.writers && s.writers[w].proc != p :: s.writers[w],
         pruners := map w | w in s.pruners && s.pruners[w].proc != p :: s.pruners[w])
    case Draw(p) =>
      var proc := s.procs[p];
      s.(procs := s.procs[p := proc.(next := proc.next + 1, drawn := proc.drawn + {proc.next})])
    case Create(w, p, stem, serial, full, made) =>
      if Opens(s, ev) in s.dir then Spent(s, ev) else Opened(Spent(s, ev), ev)
    case Write(w, count, at) =>
      var ino := s.writers[w].ino;
      s.(inodes := s.inodes[ino := Extended(s.inodes[ino], count, at)])
    case Fsync(w) =>
      var ino := s.writers[w].ino;
      s.(inodes := s.inodes[ino := s.inodes[ino].(synced := true)],
         writers := s.writers[w := s.writers[w].(synced := true)])
    case GiveUp(w) => s.(writers := s.writers - {w})
    case Rename(w) => Published(s, w)
    case Stat(w, name, _) => s.(pruners := s.pruners[w := s.pruners[w].(found := Some(name))])
    case Unlink(w) =>
      s.(dir := s.dir - {s.pruners[w].found.value}, pruners := s.pruners[w := s.pruners[w].(found := None)])
    case EndPrune(w) => s.(pruners := s.pruners - {w})
    case Load(r, stem, used) =>
      var ino := s.dir[Final(stem)];
      s.(loaded := s.loaded[r := ino], inodes := s.inodes[ino := s.inodes[ino].(mtime := used)])
    case Unload(r) => s.(loaded := s.loaded - {r})
    case Crash(dir, lost) =>
      State(map[], dir, Survived(s.inodes, lost), map[], map[], map[], s.ever)
  }

  /** What the disk holds after a crash: a file never synced may hold anything. */
  function Survived(inodes: seq<Inode>, lost: seq<Bytes>): (after: seq<Inode>)
    requires |lost| == |inodes|
  {
    seq(|inodes|, i requires 0 <= i < |inodes| =>
      if inodes[i].synced then inodes[i] else inodes[i].(data := lost[i]))
  }

  const EMPTY := State(map[], map[], [], map[], map[], map[], {})

  ghost predicate Run(states: seq<State>, events: seq<Event>) {
    && |states| == |events| + 1
    && states[0] == EMPTY
    && forall i {:trigger events[i]} :: 0 <= i < |events| ==>
         Enabled(states[i], events[i]) && states[i + 1] == Apply(states[i], events[i])
  }

  ghost predicate LiveTemp(s: State, name: Name) {
    exists w :: w in s.writers && s.writers[w].tmp == name
  }

  /** No open makes a file at a temp name that another live writer still means to rename. */
  ghost predicate FreshTemp(s: State, ev: Event) {
    ev.Create? && ev.p in s.procs && Opens(s, ev) !in s.dir ==> !LiveTemp(s, Opens(s, ev))
  }

  /** Every temp name opened in the first `upto` events was fresh. */
  ghost predicate Fresh(states: seq<State>, events: seq<Event>, upto: nat) {
    && upto <= |events| && upto <= |states|
    && forall k {:trigger events[k]} :: 0 <= k < upto ==> FreshTemp(states[k], events[k])
  }

  // What every reachable state keeps while temp names are fresh.

  /** A file stored for `stem` is complete, and nobody writes to it. */
  ghost predicate Settled(s: State, stem: string, ino: nat) {
    && ino < |s.inodes| && s.inodes[ino].stem == stem && Complete(s.inodes[ino])
    && forall w :: w in s.writers ==> s.writers[w].ino != ino
  }

  /** So is every file a final name ever stood at. */
  ghost predicate FinalComplete(s: State) {
    forall stem, ino :: (Final(stem), ino) in s.ever ==> Settled(s, stem, ino)
  }

  ghost predicate WriterSound(s: State, wr: Writer) {
    && wr.ino < |s.inodes| && wr.tmp.Temp?
    && s.inodes[wr.ino].stem == wr.tmp.stem
    && s.inodes[wr.ino].data <= s.inodes[wr.ino].full
    && (wr.synced ==> Complete(s.inodes[wr.ino]))
    && (wr.tmp in s.dir ==> s.dir[wr.tmp] == wr.ino)
  }

  ghost predicate WritersSound(s: State) {
    && (forall w :: w in s.writers ==> WriterSound(s, s.writers[w]))
    && (forall w, v :: w in s.writers && v in s.writers && w != v ==>
          s.writers[w].ino != s.writers[v].ino && s.writers[w].tmp != s.writers[v].tmp)
  }

  ghost predicate Recorded(s: State) {
    && Among(s.dir, s.ever)
    && (forall name, ino :: (name, ino) in s.ever ==> ino < |s.inodes|)
    && (forall r :: r in s.loaded ==> exists stem :: (Final(stem), s.loaded[r]) in s.ever)
  }

  ghost predicate Inv(s: State) { FinalComplete(s) && WritersSound(s) && Recorded(s) }

  /** Events that touch neither the files nor who writes them, except to drop names and writers. */
  predicate Quiet(ev: Event) {
    ev.Start? || ev.Exit? || ev.Draw? || ev.GiveUp? || ev.Stat? || ev.Unlink? || ev.EndPrune? || ev.Unload?
  }

  ghost predicate Part<K(!new), V>(m: map<K, V>, whole: map<K, V>) {
    forall k :: k in m ==> k in whole && m[k] == whole[k]
  }

  ghost predicate Fewer(s': State, s: State) {
    && s'.inodes == s.inodes && s'.ever == s.ever
    && Part(s'.writers, s.writers) && Part(s'.dir, s.dir) && Part(s'.loaded, s.loaded)
  }

  /** `s'` has some of the writers of `s`, under the same names. */
  ghost predicate SameNames(s': State, s: State) {
    forall w :: w in s'.writers ==>
      w in s.writers && s'.writers[w].tmp == s.writers[w].tmp && s'.writers[w].proc == s.writers[w].proc
  }

  lemma FewerKeepsInv(s: State, s': State)
    requires Inv(s) && Fewer(s', s)
    ensures Inv(s')
  {
  }

  lemma QuietIsFewer(s: State, ev: Event)
    requires Enabled(s, ev) && Quiet(ev)
    ensures Fewer(Apply(s, ev), s)
  {
  }

  lemma FinalCompleteRename(s: State, ev: Event)
    requires Inv(s) && Enabled(s, ev) && ev.Rename?
    ensures FinalComplete(Apply(s, ev))
  {
    assert WriterSound(s, s.writers[ev.w]);
    assert Part(Apply(s, ev).writers, s.writers);
  }

  lemma FinalCompleteCrash(s: State, ev: Event)
    requires Inv(s) && Enabled(s, ev) && ev.Crash?
    ensures FinalComplete(Apply(s, ev))
  {
  }

  lemma FinalCompleteStep(s: State, ev: Event)
    requires Inv(s) && Enabled(s, ev) && !Quiet(ev)
    ensures FinalComplete(Apply(s, ev))
  {
    if ev.Rename? {
      FinalCompleteRename(s, ev);
    } else if ev.Crash? {
      FinalCompleteCrash(s, ev);
    }
  }

  lemma WritersSoundOpened(s: State, ev: Event)
    requires WritersSound(s) && ev.Create? && ev.p in s.procs
    requires !LiveTemp(s, Opens(s, ev)) && ev.w !in s.writers
    ensures WritersSound(Opened(s, ev))
  {
    var s', tmp := Opened(s, ev), Opens(s, ev);
    forall w | w in s'.writers ensures WriterSound(s', s'.writers[w]) {
      if w != ev.w {
        assert WriterSound(s, s.writers[w]) && s.writers[w].tmp != tmp;
      }
    }
    forall w, v | w in s'.writers && v in s'.writers && w != v
      ensures s'.writers[w].ino != s'.writers[v].ino && s'.writers[w].tmp != s'.writers[v].tmp
    {
      var other := if w == ev.w then v else w;
      assert WriterSound(s, s.writers[other]) && s.writers[other].tmp != tmp;
    }
  }

  lemma WritersSoundCreate(s: State, ev: Event)
    requires WritersSound(s) && Enabled(s, ev) && FreshTemp(s, ev) && ev.Create?
    ensures WritersSound(Apply(s, ev))
  {
    var spent := Spent(s, ev);
    assert WritersSound(spent) by {
      assert forall w :: w in s.writers ==> WriterSound(s, s.writers[w]) && WriterSound(spent, s.writers[w]);
    }
    if Opens(s, ev) !in s.dir {
      assert !LiveTemp(spent, Opens(spent, ev));
      WritersSoundOpened(spent, ev);
    }
  }

  lemma WriterSoundRename(s: State, ev: Event, w: nat)
    requires WritersSound(s) && Enabled(s, ev) && ev.Rename? && w in s.writers && w != ev.w
    ensures w in Apply(s, ev).writers && Apply(s, ev).writers[w] == s.writers[w]
    ensures WriterSound(Apply(s, ev), s.writers[w])
  {
    assert WriterSound(s, s.writers[w]) && s.writers[w].tmp != s.writers[ev.w].tmp;
  }

  lemma WriterSoundWrite(s: State, ev: Event, w: nat)
    requires WritersSound(s) && Enabled(s, ev) && (ev.Write? || ev.Fsync?) && w in s.writers
    ensures w in Apply(s, ev).writers && WriterSound(Apply(s, ev), Apply(s, ev).writers[w])
  {
    var s', ino := Apply(s, ev), s.writers[ev.w].ino;
    assert WriterSound(s, s.writers[w]);
    if w == ev.w {
      assert s'.inodes[ino].data <= s'.inodes[ino].full;
    } else {
      assert s'.inodes[s.writers[w].ino] == s.inodes[s.writers[w].ino];
    }
  }

  lemma WritersSoundStep(s: State, ev: Event)
    requires WritersSound(s) && Enabled(s, ev) && (ev.Write? || ev.Fsync? || ev.Rename?)
    ensures WritersSound(Apply(s, ev))
  {
    var s' := Apply(s, ev);
    forall w | w in s'.writers ensures WriterSound(s', s'.writers[w]) {
      if ev.Rename? {
        WriterSoundRename(s, ev, w);
      } else {
        WriterSoundWrite(s, ev, w);
      }
    }
  }

  lemma RecordedRename(s: State, ev: Event)
    requires WritersSound(s) && Recorded(s) && Enabled(s, ev) && ev.Rename?
    ensures Recorded(Apply(s, ev))
  {
  }

  lemma RecordedCrash(s: State, ev: Event)
    requires Recorded(s) && Enabled(s, ev) && ev.Crash?
    ensures Recorded(Apply(s, ev))
  {
  }

  lemma RecordedStep(s: State, ev: Event)
    requires WritersSound(s) && Recorded(s) && Enabled(s, ev) && !Quiet(ev)
    ensures Recorded(Apply(s, ev))
  {
    if ev.Rename? {
      RecordedRename(s, ev);
    } else if ev.Crash? {
      RecordedCrash(s, ev);
    }
  }

  lemma InvStep(s: State, ev: Event)
    requires Inv(s) && Enabled(s, ev) && FreshTemp(s, ev)
    ensures Inv(Apply(s, ev))
  {
    if Quiet(ev) {
      QuietIsFewer(s, ev);
      FewerKeepsInv(s, Apply(s, ev));
    } else {
      FinalCompleteStep(s, ev);
      RecordedStep(s, ev);
      if ev.Create? {
        WritersSoundCreate(s, ev);
      } else if ev.Write? || ev.Fsync? || ev.Rename? {
        WritersSoundStep(s, ev);
      }
    }
  }

  // Over whole runs.

  lemma {:induction false} Reachable(states: seq<State>, events: seq<Event>, i: nat)
    requires Run(states, events) && i < |states|
    requires Fresh(states, events, i)
    ensures Inv(states[i])
  {
    if i > 0 {
      Reachable(states, events, i - 1);
      InvStep(states[i - 1], events[i - 1]);
    }
  }

  /** The file at a final name is complete and synced, was stored for that very name, and no writer
      still writes it. */
  ghost predicate Whole(s: State, stem: string) {
    Final(stem) in s.dir ==> Settled(s, stem, s.dir[Final(stem)])
  }

  /** Whatever the interleaving, while temp names are fresh a final name never carries partial bytes. */
  lemma FinalNeverPartial(states: seq<State>, events: seq<Event>, i: nat, stem: string)
    requires Run(states, events) && i < |states|
    requires Fresh(states, events, i)
    ensures Whole(states[i], stem)
  {
    Reachable(states, events, i);
  }

  lemma CompleteStays(s: State, ev: Event, ino: nat, stem: string)
    requires FinalComplete(s) && Enabled(s, ev) && (Final(stem), ino) in s.ever
    ensures (Final(stem), ino) in Apply(s, ev).ever
    ensures ino < |s.inodes| && ino < |Apply(s, ev).inodes| && Apply(s, ev).inodes[ino].data == s.inodes[ino].data
  {
    assert Settled(s, stem, ino);
  }

  /** A load opens the complete file its own stem was stored under, and the bytes it trusts are the same
      in every later state. */
  lemma LoadedNeverChanges(states: seq<State>, events: seq<Event>, i: nat, j: nat)
    requires Run(states, events) && i < j < |states| && events[i].Load?
    requires Fresh(states, events, j)
    ensures var ev, s := events[i], states[i + 1];
            && ev.r in s.loaded
            && var ino := s.loaded[ev.r];
               && states[i].dir[Final(ev.stem)] == ino < |s.inodes| && ino < |states[j].inodes|
               && Complete(s.inodes[ino]) && s.inodes[ino].stem == ev.stem
               && states[j].inodes[ino].data == s.inodes[ino].data
  {
    var ev := events[i];
    var ino := states[i].dir[Final(ev.stem)];
    Reachable(states, events, i);
    assert (Final(ev.stem), ino) in states[i].ever;
    Reachable(states, events, i + 1);
    assert Settled(states[i + 1], ev.stem, ino);
    FileStays(states, events, i + 1, j, ino, ev.stem);
  }

  lemma {:induction false} FileStays(states: seq<State>, events: seq<Event>, i: nat, j: nat, ino: nat, stem: string)
    requires Run(states, events) && i <= j < |states| && (Final(stem), ino) in states[i].ever
    requires Fresh(states, events, j)
    ensures (Final(stem), ino) in states[j].ever
    ensures ino < |states[i].inodes| && ino < |states[j].inodes|
    ensures states[j].inodes[ino].data == states[i].inodes[ino].data
    decreases j
  {
    if i == j {
      Reachable(states, events, i);
    } else {
      FileStays(states, events, i, j - 1, ino, stem);
      Reachable(states, events, j - 1);
      CompleteStays(states[j - 1], events[j - 1], ino, stem);
    }
  }

  // The window measures time since last use.

  /** The event sets the modification time of `ino`. */
  ghost predicate Stamps(s: State, ev: Event, ino: nat) {
    || (ev.Write? && ev.w in s.writers && s.writers[ev.w].ino == ino)
    || (ev.Load? && Final(ev.stem) in s.dir && s.dir[Final(ev.stem)] == ino)
  }

  lemma MtimeStep(s: State, ev: Event, ino: nat)
    requires Enabled(s, ev) && ino < |s.inodes| && !Stamps(s, ev, ino)
    ensures ino < |Apply(s, ev).inodes| && Apply(s, ev).inodes[ino].mtime == s.inodes[ino].mtime
  {
  }

  ghost predicate Unstamped(states: seq<State>, events: seq<Event>, i: nat, j: nat, ino: nat) {
    && j <= |states| && j <= |events|
    && forall k {:trigger events[k]} :: i <= k < j ==> !Stamps(states[k], events[k], ino)
  }

  lemma {:induction false} MtimeStays(states: seq<State>, events: seq<Event>, i: nat, j: nat, ino: nat)
    requires Run(states, events) && i <= j < |states| && ino < |states[i].inodes|
    requires Unstamped(states, events, i, j, ino)
    ensures ino < |states[j].inodes| && states[j].inodes[ino].mtime == states[i].inodes[ino].mtime
    decreases j
  {
    if i < j {
      MtimeStays(states, events, i, j - 1, ino);
      var s, ev := states[j - 1], events[j - 1];
      assert Enabled(s, ev) && states[j] == Apply(s, ev) && !Stamps(s, ev, ino);
      MtimeStep(s, ev, ino);
    }
  }

  /** A file is found stale only once 30 days have passed since it was last loaded, by the clocks of
      that load and of the prune. */
  lemma UsedIsKept(states: seq<State>, events: seq<Event>, i: nat, j: nat)
    requires Run(states, events) && i < j < |events| && events[i].Load? && events[j].Stat?
    requires var ino := states[i].dir[Final(events[i].stem)];
             states[j].dir[events[j].name] == ino && Unstamped(states, events, i + 1, j, ino)
    ensures events[j].now - events[i].used as real > 2_592_000.0
  {
    var ino := states[i].dir[Final(events[i].stem)];
    assert states[i + 1].inodes[ino].mtime == events[i].used;
    MtimeStays(states, events, i + 1, j, ino);
  }

  // Temp names are fresh while the temp files of live writers are young.

  /** Whenever a pruner stats, the temp file of every live writer is within the window. */
  ghost predicate YoungTemps(s: State, ev: Event) {
    ev.Stat? ==> forall w :: w in s.writers && s.writers[w].tmp in s.dir && s.dir[s.writers[w].tmp] < |s.inodes| ==>
      ev.now - s.inodes[s.dir[s.writers[w].tmp]].mtime as real <= ARTIFACT_TTL as real
  }

  ghost predicate Condemned(s: State, name: Name) {
    exists w :: w in s.pruners && s.pruners[w].found == Some(name)
  }

  /** No temp name is opened between a pruner's stale stat of it and its unlink. */
  ghost predicate Uncontested(s: State, ev: Event) {
    ev.Create? && ev.p in s.procs ==> !Condemned(s, Opens(s, ev))
  }

  ghost predicate Aged(states: seq<State>, events: seq<Event>) {
    && |events| <= |states|
    && forall i {:trigger events[i]} :: 0 <= i < |events| ==>
         YoungTemps(states[i], events[i]) && Uncontested(states[i], events[i])
  }

  /** The temp file of a live writer stands, and no pruner is about to take it. */
  ghost predicate TempsRetained(s: State) {
    forall w :: w in s.writers ==> s.writers[w].tmp in s.dir && !Condemned(s, s.writers[w].tmp)
  }

  lemma TempsRetainedCreate(s: State, ev: Event)
    requires Inv(s) && Enabled(s, ev) && TempsRetained(s) && Uncontested(s, ev) && ev.Create?
    ensures FreshTemp(s, ev) && TempsRetained(Apply(s, ev))
  {
    assert Apply(s, ev).pruners == s.pruners;
  }

  lemma TempsRetainedRename(s: State, ev: Event)
    requires Inv(s) && Enabled(s, ev) && TempsRetained(s) && ev.Rename?
    ensures TempsRetained(Apply(s, ev))
  {
    var s', w := Apply(s, ev), ev.w;
    assert WriterSound(s, s.writers[w]);
    assert Part(s'.writers, s.writers) && w !in s'.writers;
    assert forall name :: Condemned(s', name) ==> Condemned(s, name);
  }

  /** A name found stale is no live writer's, since those are young. */
  lemma TempsRetainedStat(s: State, ev: Event)
    requires Inv(s) && Enabled(s, ev) && TempsRetained(s) && YoungTemps(s, ev) && ev.Stat?
    ensures TempsRetained(Apply(s, ev))
  {
    var s' := Apply(s, ev);
    assert s'.writers == s.writers && s'.dir == s.dir;
    assert !LiveTemp(s, ev.name);
    assert forall name :: Condemned(s', name) ==> name == ev.name || Condemned(s, name);
  }

  lemma TempsRetainedUnlink(s: State, ev: Event)
    requires Enabled(s, ev) && TempsRetained(s) && ev.Unlink?
    ensures TempsRetained(Apply(s, ev))
  {
    var s' := Apply(s, ev);
    assert Condemned(s, s.pruners[ev.w].found.value);
    assert forall name :: Condemned(s', name) ==> Condemned(s, name);
  }

  lemma TempsRetainedFewer(s: State, s': State)
    requires TempsRetained(s) && SameNames(s', s) && Part(s'.pruners, s.pruners)
    requires s'.dir == s.dir || s'.writers == map[]
    ensures TempsRetained(s')
  {
    assert forall name :: Condemned(s', name) ==> Condemned(s, name);
  }

  lemma TempsRetainedStep(s: State, ev: Event)
    requires Inv(s) && Enabled(s, ev) && TempsRetained(s) && YoungTemps(s, ev) && Uncontested(s, ev)
    ensures FreshTemp(s, ev) && TempsRetained(Apply(s, ev))
  {
    if ev.Create? {
      TempsRetainedCreate(s, ev);
    } else if ev.Rename? {
      TempsRetainedRename(s, ev);
    } else if ev.Stat? {
      TempsRetainedStat(s, ev);
    } else if ev.Unlink? {
      TempsRetainedUnlink(s, ev);
    } else {
      TempsRetainedFewer(s, Apply(s, ev));
    }
  }

  lemma {:induction false} AgeRetains(states: seq<State>, events: seq<Event>, i: nat)
    requires Run(states, events) && Aged(states, events) && i <= |events|
    ensures Fresh(states, events, i) && TempsRetained(states[i])
  {
    if i > 0 {
      AgeRetains(states, events, i - 1);
      Reachable(states, events, i - 1);
      TempsRetainedStep(states[i - 1], events[i - 1]);
    }
  }

  /** In every run whose live temp files are within the window whenever a pruner stats, and none is
      opened between a stale stat of its name and the unlink, no temp file of a live writer is ever
      pruned, no temp name is shared and no final name is ever partial, even between processes that go
      by one id. */
  lemma AgeKeepsFinalsWhole(states: seq<State>, events: seq<Event>, i: nat, stem: string)
    requires Run(states, events) && Aged(states, events) && i < |states|
    ensures TempsRetained(states[i]) && Fresh(states, events, i) && Whole(states[i], stem)
  {
    AgeRetains(states, events, i);
    FinalNeverPartial(states, events, i, stem);
  }

  // Temp names are fresh while live processes go by distinct ids.

  ghost predicate DistinctIds(s: State) {
    forall p, q :: p in s.procs && q in s.procs && s.procs[p].pid == s.procs[q].pid ==> p == q
  }

  ghost predicate NumberedWriter(s: State, wr: Writer) {
    && wr.proc in s.procs && wr.tmp.Temp? && wr.tmp.pid == s.procs[wr.proc].pid
    && wr.tmp.serial < s.procs[wr.proc].next && wr.tmp.serial !in s.procs[wr.proc].drawn
  }

  /** Each process hands every serial out once. */
  ghost predicate Numbered(s: State) {
    && (forall p, serial :: p in s.procs && serial in s.procs[p].drawn ==> serial < s.procs[p].next)
    && (forall w :: w in s.writers ==> NumberedWriter(s, s.writers[w]))
    && (forall w, v :: w in s.writers && v in s.writers && w != v && s.writers[w].proc == s.writers[v].proc ==>
          s.writers[w].tmp.serial != s.writers[v].tmp.serial)
  }

  lemma NumberedSame(s: State, s': State)
    requires Numbered(s) && SameNames(s', s)
    requires forall p, serial :: p in s'.procs && serial in s'.procs[p].drawn ==> serial < s'.procs[p].next
    requires forall w :: w in s'.writers ==> NumberedWriter(s', s.writers[w])
    ensures Numbered(s')
  {
  }

  lemma NumberedOpened(s: State, ev: Event)
    requires Numbered(s) && ev.Create? && ev.p in s.procs
    requires ev.serial < s.procs[ev.p].next && ev.serial !in s.procs[ev.p].drawn
    requires forall w :: w in s.writers && s.writers[w].proc == ev.p ==> s.writers[w].tmp.serial != ev.serial
    ensures Numbered(Opened(s, ev))
  {
    var s' := Opened(s, ev);
    forall w | w in s'.writers ensures NumberedWriter(s', s'.writers[w]) {
      if w != ev.w {
        assert NumberedWriter(s, s.writers[w]);
      }
    }
  }

  lemma NumberedCreate(s: State, ev: Event)
    requires Numbered(s) && Enabled(s, ev) && ev.Create?
    ensures Numbered(Apply(s, ev))
  {
    var spent := Spent(s, ev);
    forall w | w in s.writers
      ensures NumberedWriter(spent, s.writers[w]) && (s.writers[w].proc == ev.p ==> s.writers[w].tmp.serial != ev.serial)
    {
      assert NumberedWriter(s, s.writers[w]);
    }
    NumberedSame(s, spent);
    if Opens(s, ev) !in s.dir {
      NumberedOpened(spent, ev);
    }
  }

  lemma NumberedProcs(s: State, ev: Event)
    requires Numbered(s) && Enabled(s, ev) && (ev.Start? || ev.Exit? || ev.Draw?)
    ensures Numbered(Apply(s, ev))
  {
    var s' := Apply(s, ev);
    forall w | w in s'.writers ensures NumberedWriter(s', s.writers[w]) {
      assert NumberedWriter(s, s.writers[w]);
    }
    NumberedSame(s, s');
  }

  lemma NumberedStep(s: State, ev: Event)
    requires Numbered(s) && Enabled(s, ev)
    ensures Numbered(Apply(s, ev))
  {
    if ev.Create? {
      NumberedCreate(s, ev);
    } else if ev.Start? || ev.Exit? || ev.Draw? {
      NumberedProcs(s, ev);
    } else {
      var s' := Apply(s, ev);
      assert SameNames(s', s) && (s'.procs == s.procs || (s'.writers == map[] && s'.procs == map[]));
      forall w | w in s'.writers ensures NumberedWriter(s', s.writers[w]) {
        assert NumberedWriter(s, s.writers[w]);
      }
      NumberedSame(s, s');
    }
  }

  lemma {:induction false} RunNumbered(states: seq<State>, events: seq<Event>, i: nat)
    requires Run(states, events) && i < |states|
    ensures Numbered(states[i])
  {
    if i > 0 {
      RunNumbered(states, events, i - 1);
      NumberedStep(states[i - 1], events[i - 1]);
    }
  }

  /** The threads of one process never share a temp name, and those of two share one only when the two
      go by one id, whatever is pruned meanwhile. */
  lemma SharedNeedsSharedId(states: seq<State>, events: seq<Event>, k: nat)
    requires Run(states, events) && k < |events| && !FreshTemp(states[k], events[k])
    ensures exists p, q :: p in states[k].procs && q in states[k].procs && p != q &&
              states[k].procs[p].pid == states[k].procs[q].pid
  {
    var s, ev := states[k], events[k];
    RunNumbered(states, events, k);
    var w :| w in s.writers && s.writers[w].tmp == Opens(s, ev);
    assert NumberedWriter(s, s.writers[w]);
  }

  /** In every run whose live processes go by distinct ids, no temp name is shared and no final name is
      ever partial, whatever the clocks say and the pruners take. */
  lemma DistinctIdsKeepFinalsWhole(states: seq<State>, events: seq<Event>, i: nat, stem: string)
    requires Run(states, events) && i < |states|
    requires forall k :: 0 <= k < i ==> DistinctIds(states[k])
    ensures Fresh(states, events, i) && Whole(states[i], stem)
  {
    forall k | 0 <= k < i ensures FreshTemp(states[k], events[k]) {
      if !FreshTemp(states[k], events[k]) {
        SharedNeedsSharedId(states, events, k);
      }
    }
    FinalNeverPartial(states, events, i, stem);
  }

  // Fresh temp names are exactly what it takes.

  ghost predicate Partial(s: State) {
    exists stem :: Final(stem) in s.dir && s.dir[Final(stem)] < |s.inodes| &&
      s.inodes[s.dir[Final(stem)]].data != s.inodes[s.dir[Final(stem)]].full
  }

  /** The run `states', events'` goes on from the first `k` events of another and opens no more files. */
  ghost predicate GoesOn(states: seq<State>, events: seq<Event>, k: nat, states': seq<State>, events': seq<Event>) {
    && Run(states, events) && Run(states', events') && k <= |events| && k <= |events'|
    && states'[..k + 1] == states[..k + 1] && events'[..k] == events[..k]
    && forall i :: k <= i < |events'| ==> !events'[i].Create?
  }

  lemma GoesOnBy(states: seq<State>, events: seq<Event>, k: nat, states': seq<State>, events': seq<Event>, ev: Event)
    returns (states'': seq<State>, events'': seq<Event>)
    requires GoesOn(states, events, k, states', events') && !ev.Create?
    requires Enabled(states'[|events'|], ev)
    ensures GoesOn(states, events, k, states'', events'')
    ensures states''[|events''|] == Apply(states'[|events'|], ev)
  {
    states'', events'' := states' + [Apply(states'[|events'|], ev)], events' + [ev];
  }

  lemma Stops(states: seq<State>, events: seq<Event>, k: nat)
    requires Run(states, events) && k <= |events|
    ensures GoesOn(states, events, k, states[..k + 1], events[..k])
  {
  }

  ghost predicate Placed(s: State, wr: Writer) {
    wr.ino < |s.inodes| && wr.tmp.Temp? && |s.inodes[wr.ino].data| <= |s.inodes[wr.ino].full|
  }

  /** Writer `w` would publish a file that is not its own and holds nothing yet. */
  ghost predicate Shares(s: State, w: nat, theirs: nat) {
    && w in s.writers && Placed(s, s.writers[w]) && s.writers[w].ino != theirs
    && s.writers[w].tmp in s.dir && s.dir[s.writers[w].tmp] == theirs
    && theirs < |s.inodes| && s.inodes[theirs].data == [] && s.inodes[theirs].full != []
  }

  lemma OpenShares(s: State, ev: Event) returns (w: nat)
    requires Inv(s) && Enabled(s, ev) && !FreshTemp(s, ev)
    ensures Shares(Apply(s, ev), w, |s.inodes|)
  {
    w :| w in s.writers && s.writers[w].tmp == Opens(s, ev);
    assert WriterSound(s, s.writers[w]);
  }

  lemma SharesThroughWrite(s: State, w: nat, theirs: nat)
    requires Shares(s, w, theirs) && !s.writers[w].synced
    ensures var f := s.inodes[s.writers[w].ino]; var rest := Write(w, |f.full| - |f.data|, 0);
            Enabled(s, rest) && Shares(Apply(s, rest), w, theirs) && Enabled(Apply(s, rest), Fsync(w))
  {
  }

  lemma SharesThroughFsync(s: State, w: nat, theirs: nat)
    requires Shares(s, w, theirs) && Enabled(s, Fsync(w))
    ensures Shares(Apply(s, Fsync(w)), w, theirs) && Apply(s, Fsync(w)).writers[w].synced
  {
  }

  lemma SharesPublished(s: State, w: nat, theirs: nat)
    requires Shares(s, w, theirs) && s.writers[w].synced
    ensures Partial(Apply(s, Rename(w)))
  {
    assert Final(s.writers[w].tmp.stem) in Apply(s, Rename(w)).dir;
  }

  lemma SharedFinished(states: seq<State>, events: seq<Event>, k: nat, s: State, w: nat, theirs: nat)
    returns (states': seq<State>, events': seq<Event>)
    requires Run(states, events) && k <= |events| && s == states[k] && Shares(s, w, theirs)
    ensures GoesOn(states, events, k, states', events')
    ensures Shares(states'[|events'|], w, theirs) && states'[|events'|].writers[w].synced
  {
    Stops(states, events, k);
    states', events' := states[..k + 1], events[..k];
    if !s.writers[w].synced {
      var f := s.inodes[s.writers[w].ino];
      SharesThroughWrite(s, w, theirs);
      states', events' := GoesOnBy(states, events, k, states', events', Write(w, |f.full| - |f.data|, 0));
      SharesThroughFsync(states'[|events'|], w, theirs);
      states', events' := GoesOnBy(states, events, k, states', events', Fsync(w));
    }
  }

  /** After an open that shares a live writer's temp name, that writer alone can finish its own file and
      publish the other's. */
  lemma SharedTempPublished(states: seq<State>, events: seq<Event>, k: nat)
    returns (states': seq<State>, events': seq<Event>)
    requires Run(states, events) && k < |events| && Fresh(states, events, k)
    requires !FreshTemp(states[k], events[k])
    ensures GoesOn(states, events, k + 1, states', events') && Partial(states'[|events'|])
  {
    Reachable(states, events, k);
    var w := OpenShares(states[k], events[k]);
    states', events' := SharedFinished(states, events, k + 1, states[k + 1], w, |states[k].inodes|);
    SharesPublished(states'[|events'|], w, |states[k].inodes|);
    states', events' := GoesOnBy(states, events, k + 1, states', events', Rename(w));
  }

  /** A run opened only fresh temp names if and only if it never stood where some final name could
      become partial with no file opened any more. */
  lemma PartialExactly(states: seq<State>, events: seq<Event>)
    requires Run(states, events)
    ensures Fresh(states, events, |events|) <==>
            forall k, states', events' :: GoesOn(states, events, k, states', events') ==> !Partial(states'[|events'|])
  {
    if Fresh(states, events, |events|) {
      forall k, states', events' | GoesOn(states, events, k, states', events') ensures !Partial(states'[|events'|]) {
        StaysFresh(states, events, k, states', events');
        Reachable(states', events', |events'|);
      }
    } else {
      var k := FirstShared(states, events, |events|);
      var states', events' := SharedTempPublished(states, events, k);
    }
  }

  lemma StaysFresh(states: seq<State>, events: seq<Event>, k: nat, states': seq<State>, events': seq<Event>)
    requires GoesOn(states, events, k, states', events') && Fresh(states, events, k)
    ensures Fresh(states', events', |events'|)
  {
    forall i | 0 <= i < |events'| ensures FreshTemp(states'[i], events'[i]) {
      if i < k {
        assert states'[i] == states'[..k + 1][i] && events'[i] == events'[..k][i];
      }
    }
  }

  lemma {:induction false} FirstShared(states: seq<State>, events: seq<Event>, upto: nat) returns (k: nat)
    requires Run(states, events) && upto <= |events| && !Fresh(states, events, upto)
    ensures k < upto && Fresh(states, events, k) && !FreshTemp(states[k], events[k])
  {
    if Fresh(states, events, upto - 1) {
      k := upto - 1;
    } else {
      k := FirstShared(states, events, upto - 1);
    }
  }

  lemma RunExtends(states: seq<State>, events: seq<Event>, ev: Event) returns (states': seq<State>, events': seq<Event>)
    requires Run(states, events) && Enabled(states[|events|], ev)
    ensures Run(states', events') && |events'| == |events| + 1
    ensures states' == states + [Apply(states[|events|], ev)] && events' == events + [ev]
    ensures Fresh(states, events, |events|) ==> Fresh(states', events', |events|)
    ensures Fresh(states, events, |events|) && FreshTemp(states[|events|], ev) ==> Fresh(states', events', |events'|)
  {
    states', events' := states + [Apply(states[|events|], ev)], events + [ev];
  }

  // A writer stalled for 31 days.

  const MONTH := 31 * 24 * 60 * 60
  const STALLED := Writer(0, Temp("a", 7, 0), 0, false)

  /** Two processes go by one id, and a thread of the first has opened a temp file. */
  ghost predicate Stalls(s: State) {
    && 0 in s.procs && 1 in s.procs && s.procs[0].pid == s.procs[1].pid == 7 && 0 in s.procs[1].drawn
    && 0 in s.writers && s.writers[0] == STALLED && 1 !in s.writers && 1 !in s.pruners
    && |s.inodes| > 0 && s.inodes[0].mtime == 0
  }

  lemma StalledWriter() returns (states: seq<State>, events: seq<Event>)
    ensures Run(states, events) && Fresh(states, events, |events|)
    ensures var s := states[|events|];
            && Stalls(s) && s.dir == map[STALLED.tmp := 0] && |s.inodes| == 1
            && 1 in s.procs[0].drawn && s.writers.Keys == {0} && s.pruners.Keys == {}
  {
    states, events := [EMPTY], [];
    states, events := RunExtends(states, events, Start(0, 7));
    states, events := RunExtends(states, events, Start(1, 7));
    states, events := RunExtends(states, events, Draw(0));
    states, events := RunExtends(states, events, Draw(0));
    states, events := RunExtends(states, events, Draw(1));
    states, events := RunExtends(states, events, Create(0, 0, "a", 0, [1], 0));
  }

  /** A month later another thread of that process stores an artifact, */
  lemma StalledWriterBeside() returns (states: seq<State>, events: seq<Event>)
    ensures Run(states, events) && Fresh(states, events, |events|)
    ensures var s := states[|events|];
            && Stalls(s) && STALLED.tmp in s.dir && s.dir[STALLED.tmp] == 0
            && 2 in s.writers && s.writers[2] == Writer(0, Temp("b", 7, 1), 1, false)
            && |s.inodes| == 2 && |s.inodes[1].data| == |s.inodes[1].full|
            && s.writers[2].tmp in s.dir
  {
    states, events := StalledWriter();
    states, events := RunExtends(states, events, Create(2, 0, "b", 1, [2], MONTH));
    states, events := RunExtends(states, events, Write(2, 1, MONTH));
  }

  /** publishes it, and begins to prune. */
  lemma StalledWriterGrowsOld() returns (states: seq<State>, events: seq<Event>)
    ensures Run(states, events) && Fresh(states, events, |events|)
    ensures var s := states[|events|];
            && Stalls(s) && STALLED.tmp in s.dir && s.dir[STALLED.tmp] == 0
            && 2 in s.pruners && s.pruners[2] == Pruner(0, Final("b"), None)
  {
    states, events := StalledWriterBeside();
    states, events := RunExtends(states, events, Fsync(2));
    states, events := RunExtends(states, events, Rename(2));
  }

  /** A writer stalled past the window loses its temp file to a pruner, a process that goes by the same
      id opens the name again, and the first then publishes the second's empty file. */
  lemma StalledWriterPublishesPartial() returns (states: seq<State>, events: seq<Event>)
    ensures Run(states, events) && Partial(states[|events|])
  {
    states, events := StalledWriterGrowsOld();
    states, events := RunExtends(states, events, Stat(2, STALLED.tmp, MONTH as real));
    states, events := RunExtends(states, events, Unlink(2));
    var k, s, again := |events|, states[|events|], Create(1, 1, "a", 0, [1], MONTH);
    assert !FreshTemp(s, again) by {
      assert Opens(s, again) == STALLED.tmp && STALLED.tmp !in s.dir && s.writers[0].tmp == STALLED.tmp;
    }
    states, events := RunExtends(states, events, again);
    states, events := SharedTempPublished(states, events, k);
  }
}

/** The names the cache writes, and what its pruner takes for one of them. */
module ArtifactNames {
  import opened Wrappers
  import opened ArtifactCache

  predicate NoDot(s: string) { '.' !in s }

  function Digit(d: nat): char
    requires d < 10
  {
    "0123456789"[d]
  }

  function Decimal(n: nat): (s: string)
    ensures s != [] && NoDot(s)
  {
    if n < 10 then [Digit(n)] else Decimal(n / 10) + [Digit(n % 10)]
  }

  function Numbers(name: Name): string
    requires name.Temp?
  {
    Decimal(name.pid) + "." + Decimal(name.serial)
  }

  function Extension(name: Name): string {
    if name.Final? then "cwasm" else "tmp" + Numbers(name)
  }

  function Render(name: Name): string { name.stem + "." + Extension(name) }

  predicate EndsWith(s: string, suffix: string) {
    |suffix| <= |s| && s[|s| - |suffix|..] == suffix
  }

  predicate Contains(s: string, part: string) {
    exists i :: 0 <= i <= |s| && StandsAt(s, i, part)
  }

  predicate StandsAt(s: string, i: int, part: string) {
    0 <= i <= |s| - |part| && s[i..i + |part|] == part
  }

  predicate IsCacheEntryName(s: string) { EndsWith(s, ".cwasm") || Contains(s, ".tmp") }

  /** The number a run of digits writes. */
  function Read(s: string): int {
    if s == "" then 0 else Read(s[..|s| - 1]) * 10 + (s[|s| - 1] as int - '0' as int)
  }

  /** A number is written in decimal, with no zero in front. */
  lemma {:induction false} DecimalReads(n: nat)
    ensures Read(Decimal(n)) == n && (n > 0 ==> Decimal(n)[0] != '0')
    ensures forall i :: 0 <= i < |Decimal(n)| ==> '0' <= Decimal(n)[i] <= '9'
  {
    if n >= 10 {
      DecimalReads(n / 10);
      assert Decimal(n)[..|Decimal(n)| - 1] == Decimal(n / 10);
    } else {
      assert Decimal(n)[..0] == "";
    }
  }

  lemma DecimalInjective(a: nat, b: nat)
    requires Decimal(a) == Decimal(b)
    ensures a == b
  {
    DecimalReads(a);
    DecimalReads(b);
  }

  lemma FirstDot(a: string, x: string, b: string, y: string)
    requires NoDot(a) && NoDot(b) && a + "." + x == b + "." + y
    ensures a == b && x == y
  {
    var s := a + "." + x;
    assert s[|a|] == '.' && s[|b|] == '.';
    assert forall i :: 0 <= i < |a| ==> s[i] == a[i] && s[i] != '.';
    assert forall i :: 0 <= i < |b| ==> s[i] == b[i] && s[i] != '.';
    assert a == s[..|a|] == b;
    assert x == s[|a| + 1..] == y;
  }

  lemma NumbersDistinct(a: Name, b: Name)
    requires a.Temp? && b.Temp? && Numbers(a) == Numbers(b)
    ensures a.pid == b.pid && a.serial == b.serial
  {
    FirstDot(Decimal(a.pid), Decimal(a.serial), Decimal(b.pid), Decimal(b.serial));
    DecimalInjective(a.pid, b.pid);
    DecimalInjective(a.serial, b.serial);
  }

  lemma ExtensionsDistinct(a: Name, b: Name)
    requires Extension(a) == Extension(b)
    ensures a.Final? == b.Final?
    ensures a.Temp? && b.Temp? ==> a.pid == b.pid && a.serial == b.serial
  {
    assert Extension(a)[0] == Extension(b)[0];
    if a.Temp? && b.Temp? {
      assert Numbers(a) == Extension(a)[3..] && Numbers(b) == Extension(b)[3..];
      NumbersDistinct(a, b);
    }
  }

  /** No two entries share a file name: two stores at once, of one artifact or of two, never write one
      file unless they agree in process id and serial, and no temp file passes for a final one. */
  lemma NamesDistinct(a: Name, b: Name)
    requires NoDot(a.stem) && NoDot(b.stem) && Render(a) == Render(b)
    ensures a == b
  {
    FirstDot(a.stem, Extension(a), b.stem, Extension(b));
    ExtensionsDistinct(a, b);
  }

  lemma EntriesAreRecognised(name: Name)
    ensures IsCacheEntryName(Render(name))
  {
    var s := Render(name);
    match name {
      case Final(stem) => assert s[|s| - 6..] == ".cwasm";
      case Temp(stem, _, _) => assert StandsAt(s, |stem|, ".tmp");
    }
  }

  ghost predicate EndsIn(s: string, suffix: string) { exists front :: s == front + suffix }

  ghost predicate Holds(s: string, part: string) { exists front, back :: s == front + part + back }

  /** Foreign files are left alone: the pruner takes for its own exactly the names that end in `.cwasm` or
      hold `.tmp`. */
  lemma EntryNameExactly(s: string)
    ensures IsCacheEntryName(s) <==> EndsIn(s, ".cwasm") || Holds(s, ".tmp")
  {
    if EndsWith(s, ".cwasm") {
      assert s == s[..|s| - 6] + ".cwasm";
    }
    if front :| s == front + ".cwasm" {
      assert s[|s| - 6..] == ".cwasm";
    }
    if i :| 0 <= i <= |s| && StandsAt(s, i, ".tmp") {
      assert s == s[..i] + ".tmp" + s[i + 4..];
    }
    if front, back :| s == front + ".tmp" + back {
      assert StandsAt(s, |front|, ".tmp");
    }
  }

  /** What a prune takes: `mtime` is the answer of the stat, if there was one. */
  predicate Prunable(keep: string, name: string, mtime: Option<int>, now: real) {
    name != keep && IsCacheEntryName(name) && mtime.Some? && Stale(mtime.value, now)
  }

  /** One pass over a listing: `stats` is what each name's stat answered and the clock after it, since
      other processes change the directory meanwhile. Unlinks exactly the prunable names, each in its
      turn. */
  method PruneStale(keep: string, listing: seq<string>, stats: seq<(Option<int>, real)>) returns (unlinked: seq<nat>)
    requires |stats| == |listing|
    ensures forall i: nat :: i in unlinked <==>
              i < |listing| && Prunable(keep, listing[i], stats[i].0, stats[i].1)
    ensures forall i: nat :: i in unlinked ==>
              && listing[i] != keep && (EndsIn(listing[i], ".cwasm") || Holds(listing[i], ".tmp"))
              && stats[i].0.Some? && stats[i].0.value >= 0
              && stats[i].1 - stats[i].0.value as real > 2_592_000.0
    ensures forall i: nat :: i < |listing| && i !in unlinked ==>
              || listing[i] == keep || !(EndsIn(listing[i], ".cwasm") || Holds(listing[i], ".tmp"))
              || stats[i].0.None? || stats[i].0.value < 0
              || stats[i].1 - stats[i].0.value as real <= 2_592_000.0
    ensures forall i, j :: 0 <= i < j < |unlinked| ==> unlinked[i] < unlinked[j]
  {
    unlinked := [];
    for k := 0 to |listing|
      invariant forall i: nat :: i in unlinked <==>
                  i < k && Prunable(keep, listing[i], stats[i].0, stats[i].1)
      invariant forall i, j :: 0 <= i < j < |unlinked| ==> unlinked[i] < unlinked[j]
    {
      var name := listing[k];
      if name == keep || !IsCacheEntryName(name) {
        continue;
      }
      var (mtime, now) := stats[k];
      if mtime.Some? && Stale(mtime.value, now) {
        assert forall i :: 0 <= i < |unlinked| ==> unlinked[i] in unlinked;
        unlinked := unlinked + [k];
      }
    }
    forall i: nat | i < |listing| { EntryNameExactly(listing[i]); }
  }

  /** On the names the cache writes, the pass unlinks exactly what a `Stat` event condemns. */
  lemma StatExactly(s: State, w: nat, name: Name, now: real)
    requires w in s.pruners && s.pruners[w].found.None? && name in s.dir && s.dir[name] < |s.inodes|
    requires NoDot(name.stem) && NoDot(s.pruners[w].keep.stem)
    ensures Enabled(s, Stat(w, name, now)) <==>
            Prunable(Render(s.pruners[w].keep), Render(name), Some(s.inodes[s.dir[name]].mtime), now)
  {
    EntriesAreRecognised(name);
    if Render(name) == Render(s.pruners[w].keep) {
      NamesDistinct(name, s.pruners[w].keep);
    }
  }
}
