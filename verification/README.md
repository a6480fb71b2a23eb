# Kobako, verified

Kobako hosts untrusted guest scripts in Wasm sandboxes. This project models the stateful components
under its API and proves what they promise, in Dafny 4.11:

- `Locking`, `LockingSystem`: the killable reader/writer lock every directory call runs under.
  `Locking` has each critical section, as a function on the record the mutex protects and as a method
  of the class `RwSemaphore`; `LockingSystem` interleaves them over any number of threads.
- `Sched`: nested runs, deadlines and interrupts, which decide when a wait for that lock must stop.
- `Pool`, `PoolSystem`: the bounded pool of warm Sandboxes, in the same two layers.
- `ArtifactCache`, `ArtifactNames`: the compiled-artifact directory many processes share, with crashes.
- `Nesting`, `HandleWalk`: the codec's depth-bounded walks over host values, cyclic ones included, and
  host objects crossing as opaque ids and back.
- `Hashtable`, `Descriptors`: the weakly held object table and the guest's descriptor table.
- `Catalog`, `Snippets`, `Extensions`, `Registry`: registration, the one compile, and the seal.
- `Dispatch`: guest calls answered by host objects that yield back into the guest.
- `Gate`, `Stats`: the release gate's verdicts over benchmark rows, and the median.
- `Wrappers`, `Counting`: result types and set sizes shared by the rest.

A concurrent component is a transition system: a state, the events one thread, process or machine can
cause, and runs of any length over any number of participants. Its invariant is proved of the first
state and of every event, so the theorems named `Reachable` and those built on them speak of every
state of every run. Code that changes fields in place is a class whose methods are proved to compute
the functions the transition system is made of.

`dafny verify dfyconfig.toml` checks the whole project.

## Assumptions about the outside

- A registered `Blocking` runs its `wait` exactly once, and a condition variable's `signal` wakes a
  thread that is really asleep. A timed-out wait and a spurious wake are the same event.
- Clocks, deadlines and the moments a run is told to stop are free inputs of each event.
- File contents are byte sequences, a serialized artifact is never empty, the digest and engine key are
  an entry's stem, and a machine crash may leave anything in a file never synced and any earlier file at
  a name.
- A provider may answer any object, one another provider answered included.
- The engine that compiles snippets may answer any number of bytecodes, nothing, or panic.
- A receiver and the guest's block may do anything: an execution is any tree of acts.
- A sleep of a wait lasts any part of its slice.
- The band a benchmark run's own sampling gives is any non-negative function of the rows.

## Where the code does less than its words

- `crates/kobako-wasmtime/src/descriptors.rs:50-52` says the table holds at most `limit` descriptors.
  `new` places every Mount's root without asking, so this holds in every run exactly when three plus
  the number of Mounts is within the limit (`Descriptors.WithinLimitExactly`).
- `crates/kobako-wasmtime/src/cache.rs:267-268` says a live temp file never qualifies for pruning, and
  `:215-217` that no two writers share one. A writer stalled past the window loses its file, and a
  process that goes by the same id, as in another container over the directory, then opens the name
  again; the first publishes the second's unfinished file
  (`ArtifactCache.StalledWriterPublishesPartial`). The exact condition is on each open: a run opens only
  names no live writer still means to rename if and only if it never stands where some final name could
  become partial with no further open (`ArtifactCache.PartialExactly`). Either of two things gives it:
  live temp files young at every stat and no name opened between its stale stat and the unlink
  (`ArtifactCache.AgeKeepsFinalsWhole`), or live processes with distinct ids
  (`ArtifactCache.DistinctIdsKeepFinalsWhole`).
- `crates/kobako-runtime/src/sched.rs:63-64` speaks of the run the thread carries out. An interrupt
  posted while none is open is kept and stops the next one (`Sched.EarlyInterruptReachesNextRun`).
- `crates/kobako-runtime/src/sched.rs:3-6` and `:85-87` say a run past its deadline stops waiting. A run
  inside it with a later deadline or none hides it (`Sched.OuterDeadlineHidden`); waits stop at every
  deadline around exactly when the entered run's own is no later than each of them, or an interrupt is
  in (`Sched.OuterDeadlinesExactly`).
- `lib/kobako/codec/handle_walk.rb:42` calls `deep_restore` the inverse of `deep_wrap`. It is, exactly
  on values that hold no Handle of their own and no Hash whose keys have become equal
  (`HandleWalk.RoundTripExactly`).

## Model

| member | source | states |
|---|---|---|
| Locking.RwSemaphore.AskRead | crates/kobako-runtime/src/locking.rs:67-78 | asking for a shared hold changes the record as `TakeRead` says, whose answers `AnsweredExactly` fixes |
| Locking.RwSemaphore.AskWrite | crates/kobako-runtime/src/locking.rs:81-93 | asking for the exclusive hold changes the record as `TakeWrite` says |
| Locking.RwSemaphore.DownReadTrylock | crates/kobako-runtime/src/locking.rs:97-105 | the shared trylock changes the record as `TryRead` says, whose answers `TrylockExactly` fixes |
| Locking.RwSemaphore.DownWriteTrylock | crates/kobako-runtime/src/locking.rs:109-117 | the exclusive trylock changes the record as `TryWrite` says |
| Locking.RwSemaphore.SlowpathEnter | crates/kobako-runtime/src/locking.rs:157-160 | the slow path joins the writers' count before it first asks |
| Locking.RwSemaphore.SlowpathWake | crates/kobako-runtime/src/locking.rs:167-175 | a woken thread leaves the waiters' count before it asks again |
| Locking.RwSemaphore.SlowpathAsk | crates/kobako-runtime/src/locking.rs:160-187 | one pass of the slow path changes the record as `Ask` says, whose outcomes `WaiterExactly` fixes |
| Locking.RwSemaphore.Drop | crates/kobako-runtime/src/locking.rs:200-217 | a dropped guard frees its own hold, found by search, and owes a notification exactly when someone waits |
| Locking.SwapRemove | crates/kobako-runtime/src/locking.rs:205-211 | removing by swapping takes out exactly one occurrence of the entry at the place found |
| Locking.ReleaseShared | crates/kobako-runtime/src/locking.rs:203-211 | releasing a shared hold removes exactly one of that holder's entries and nobody else's |
| LockingSystem.InvStep | crates/kobako-runtime/src/locking.rs:134-217 | every event of every thread keeps the ledger, the counters, the freedom from self-waits and the absence of lost wakeups |
| LockingSystem.Reachable | crates/kobako-runtime/src/locking.rs:37-217 | in every state of every run: `readers` is the multiset of live shared guards and `writer` the one live exclusive guard, never both; `waiting` and `writers_waiting` count exactly the threads inside the wait; no thread in the slow path holds the lock; every unnotified sleeper is still blocked unless a release still owes its notification |
| LockingSystem.AnsweredExactly | crates/kobako-runtime/src/locking.rs:67-93 | in every reachable state, told by live guards and the queue alone: Deadlock exactly for a thread whose own hold blocks it, granted exactly when nothing stands in the way, shared on shared even past a queued writer, and a holder never left to wait |
| LockingSystem.TrylockExactly | crates/kobako-runtime/src/locking.rs:95-117 | a trylock succeeds exactly when nobody holds the lock against it and, for a shared one, no writer is queued |
| LockingSystem.DownExactly | crates/kobako-runtime/src/locking.rs:67-147 | the first ask adds the guard exactly when nothing stands in the way, is told Deadlock and changes nothing exactly when the thread's own hold does, and else goes to the slow path with every guard as it was |
| LockingSystem.TrylockTakesExactly | crates/kobako-runtime/src/locking.rs:95-117 | a trylock adds its guard exactly when nobody holds against it or, for a shared one, waits to, and else changes nothing |
| LockingSystem.WaiterExactly | crates/kobako-runtime/src/locking.rs:151-187 | a waiter whose run goes on never leaves without the hold: it takes it exactly when nothing stands in the way and else sleeps with every guard as it was; one whose run is to stop never sleeps and wakes the others |
| LockingSystem.DropExactly | crates/kobako-runtime/src/locking.rs:200-217 | a drop ends exactly the one guard and goes on to notify exactly when someone waits |
| LockingSystem.WakesExactly | crates/kobako-runtime/src/locking.rs:167-217 | a notification wakes everyone asleep, a timeout only its own thread |
| LockingSystem.SlowpathNeverDeadlocks | crates/kobako-runtime/src/locking.rs:161-180 | the Deadlock arm of the slow path is unreachable in every run |
| LockingSystem.StoppedWaiterLeaves | crates/kobako-runtime/src/locking.rs:160-187 | a waiter whose run is to stop leaves at its next wake, with the hold if nothing stands in the way, else with every guard as it was; the counters then count only the others |
| LockingSystem.WritersNotOvertaken | crates/kobako-runtime/src/locking.rs:67-105 | over any stretch of a run in which a writer stays queued, no thread holds the lock shared at the end that did not at the start |
| LockingSystem.NobodyStranded | crates/kobako-runtime/src/locking.rs:151-217 | while a thread sleeps, a guard is live, a notification is owed, or a woken thread can take the lock now |
| Sched.Task.RunOn | crates/kobako-runtime/src/sched.rs:88-112 | a run on the thread's own fields, its guard's drop included, does what `RunOne` says however the body ends |
| Sched.Task.Perform | crates/kobako-runtime/src/sched.rs:57-122 | interrupts, looks and nested runs on those fields do what `Exec` says, whose log `LogIsTree` and `WaitsByTree` fix |
| Sched.RunTied | crates/kobako-runtime/src/sched.rs:88-112 | for every tree of nested runs, panics included, the deadline and depth after a run are those before it, and the fields say exactly what the log of events says |
| Sched.KillableWaits | crates/kobako-runtime/src/sched.rs:85-122 | a wait is told to stop exactly when an interrupt was posted since the last outermost run ended or the innermost run's deadline has passed |
| Sched.LogIsTree | crates/kobako-runtime/src/sched.rs:57-122 | the log of a tree is its own course up to a panic: no interrupt, look or run is lost or made up |
| Sched.WaitsByTree | crates/kobako-runtime/src/sched.rs:57-122 | from the tree alone, a wait is told to stop exactly when an interrupt was posted before it in the same outermost run, or since the last one ended, or the innermost deadline has passed |
| Sched.InterruptLasts | crates/kobako-runtime/src/sched.rs:63-67 | nothing inside the outermost run lets an interrupt go |
| Sched.OutermostRunLetsGo | crates/kobako-runtime/src/sched.rs:89-104 | the end of the outermost run always does |
| Sched.EarlyInterruptReachesNextRun | crates/kobako-runtime/src/sched.rs:65-67 | an interrupt posted while no run is open stops every wait, at any depth, of whatever the next one does |
| Sched.OuterDeadlinesExactly | crates/kobako-runtime/src/sched.rs:85-122 | in the run entered, waits stop at every deadline around exactly when its own is no later than each, or an interrupt is in |
| Sched.OuterDeadlineHidden | crates/kobako-runtime/src/sched.rs:107-122 | a concrete tree in which a wait inside a run past its deadline goes on |
| Sched.EnclosingDeadlinesHold | crates/kobako-runtime/src/sched.rs:85-122 | in every tree whose runs tighten the deadlines around them, every wait stops once any open run is past its own |
| Sched.LooksInTime | crates/kobako-runtime/src/sched.rs:124-134 | whatever part of each slice a wait sleeps, it never sleeps past its deadline and looks again within 10 ms of any moment |
| Sched.SleepSlice | crates/kobako-runtime/src/sched.rs:124-134 | the slice is the longest sleep of at most 10 ms that is not past the deadline |
| Pool.Pool.ClaimSlot | lib/kobako/pool.rb:63-75 | one `claim_or_wait` changes the pool as `ClaimOrWait` says, whose outcomes `ClaimExactly` fixes |
| Pool.Pool.Checkin | lib/kobako/pool.rb:100-105 | a checkin makes its Sandbox idle, changes nothing else and signals |
| Pool.Pool.ReleaseCapacity | lib/kobako/pool.rb:107-112 | a failed build gives back one slot, changes nothing else and signals |
| PoolSystem.ConservedStep | lib/kobako/pool.rb:49-112 | every event keeps every slot accounted for and leaves no free slot without a thread awake to take it while anyone sleeps |
| PoolSystem.ExclusiveStep | lib/kobako/pool.rb:38-112 | every event keeps each Sandbox idle once or held once, and none lost |
| PoolSystem.Reachable | lib/kobako/pool.rb:38-112 | in every state of every run: `@constructed` is idle plus building plus held and within `slots`; no Sandbox is idle twice, held twice or both, and every one built is one of these; while anyone sleeps, at least as many threads are awake to claim as there are idle Sandboxes and unreserved slots |
| PoolSystem.ClaimExactly | lib/kobako/pool.rb:49-86 | a claim takes the last idle Sandbox first, builds only when none is idle and a slot is unreserved, and raises the timeout exactly when the deadline has passed with every slot being built or held |
| PoolSystem.TimesOutExactly | lib/kobako/pool.rb:48-86 | a claim raises the timeout exactly when every slot is being built or held and the pool's timeout has passed since its thread arrived, and never without one |
| PoolSystem.NobodyStranded | lib/kobako/pool.rb:59-112 | whenever something is free while a thread sleeps, an awakened thread's claim would take it |
| ArtifactCache.Reachable | crates/kobako-wasmtime/src/cache.rs:184-295 | over every interleaving of processes, stores, loads, prunes, exits and crashes that opens only fresh temp names, every file a final name ever stood at is complete, and each live writer's temp name, where present, is its own file |
| ArtifactCache.FinalNeverPartial | crates/kobako-wasmtime/src/cache.rs:177-213 | in every state of every such run, the file at a final name is complete, synced, stored for that name, and no writer still writes it |
| ArtifactCache.LoadedNeverChanges | crates/kobako-wasmtime/src/cache.rs:161-175 | a load opens the complete file stored for its own stem, and its bytes are the same in every later state |
| ArtifactCache.UsedIsKept | crates/kobako-wasmtime/src/cache.rs:124-166 | a file is found stale only once the window has passed since it was last loaded |
| ArtifactCache.AgeKeepsFinalsWhole | crates/kobako-wasmtime/src/cache.rs:177-295 | in every run whose live temp files are within the window at every stat, and none opened between its stale stat and the unlink, no live temp file is pruned, no temp name is shared and no final name is partial, colliding process ids included |
| ArtifactCache.SharedNeedsSharedId | crates/kobako-wasmtime/src/cache.rs:215-228 | since each process hands every serial out once, an open shares a live writer's temp name only where two live processes go by one id |
| ArtifactCache.DistinctIdsKeepFinalsWhole | crates/kobako-wasmtime/src/cache.rs:177-295 | in every run whose live processes go by distinct ids, no temp name is shared and no final name is partial, whatever the clocks say and is pruned |
| ArtifactCache.SharedTempPublished | crates/kobako-wasmtime/src/cache.rs:199-213 | after an open that shares a live writer's temp name, that writer alone can finish and publish the other's empty file |
| ArtifactCache.PartialExactly | crates/kobako-wasmtime/src/cache.rs:177-228 | a run opened only fresh temp names if and only if no run going on from a point of it without opening files makes a final name partial |
| ArtifactCache.StalledWriterPublishesPartial | crates/kobako-wasmtime/src/cache.rs:199-295 | a concrete run, by a stale stat and its unlink, at whose end a final name carries a partial file |
| ArtifactNames.NamesDistinct | crates/kobako-wasmtime/src/cache.rs:137-228 | as strings, two entry names are equal only when stem, kind, process id and serial are |
| ArtifactNames.EntriesAreRecognised | crates/kobako-wasmtime/src/cache.rs:297-300 | every name the cache writes is one its pruner takes for its own |
| ArtifactNames.EntryNameExactly | crates/kobako-wasmtime/src/cache.rs:267-300 | the pruner takes for its own exactly the names that end in `.cwasm` or hold `.tmp`, and leaves every other file alone |
| ArtifactNames.DecimalReads | crates/kobako-wasmtime/src/cache.rs:222-224 | a process id and a serial stand in a name in decimal |
| ArtifactNames.PruneStale | crates/kobako-wasmtime/src/cache.rs:270-295 | one pass unlinks exactly the cache entries whose stat was older than the window, other than the one kept, each in its turn, whatever other processes do meanwhile |
| ArtifactNames.StatExactly | crates/kobako-wasmtime/src/cache.rs:270-300 | on the names the cache writes, that pass takes exactly what the run's stale stat condemns |
| Nesting.RefusedExactly | lib/kobako/codec/nesting.rb:12-34 | on every heap, cyclic ones included, the walk ends, and refuses exactly when some descent passes through more non-empty containers than the bound of 128 leaves room for |
| Nesting.CycleRefused | lib/kobako/codec/nesting.rb:25-34 | a value that reaches a cycle is refused at every starting depth |
| HandleWalk.RepresentableWithin | lib/kobako/codec/handle_walk.rb:23-27 | whatever is representable at a depth passes the nesting bound at that depth |
| HandleWalk.WrapFits | lib/kobako/codec/handle_walk.rb:32-40 | on every heap, a value that is wrapped reaches no cycle and was within the bound, and what it became is representable and within the bound at the same depth |
| HandleWalk.RepresentableExactly | lib/kobako/codec/handle_walk.rb:19-27 | on every heap, a value is representable exactly when everything reached from it is of a wire type, Integers of 64 bits among them, and within the bound |
| HandleWalk.WireCrossesAsItself | lib/kobako/codec/handle_walk.rb:32-40 | such a value with distinct keys crosses as itself and leaves the table untouched |
| HandleWalk.OthersTakeAnId | lib/kobako/codec/handle_walk.rb:32-40 | an object that may cross, or an Integer past 64 bits, takes the next id |
| HandleWalk.WrapExactly | lib/kobako/codec/handle_walk.rb:32-87 | on every heap, a wrap succeeds exactly when depth, keys and objects let the value cross and the ids left suffice, and then binds exactly its objects to consecutive ids in the order met |
| HandleWalk.RoundTripExactly | lib/kobako/codec/handle_walk.rb:32-57 | on every heap, shared containers included, restore over the resulting table gives a wrapped value back if and only if it held no Handle of its own and no Hash with two equal keys |
| HandleWalk.UnfoldSame | lib/kobako/codec/handle_walk.rb:32-57 | a value within the bound with every container in place is its own unfolding |
| HandleWalk.RestoreFailsExactly | lib/kobako/codec/handle_walk.rb:42-57 | a payload is refused exactly when it holds, as a key or anywhere, a Handle that names nothing |
| HandleWalk.HashRestoredExactly | lib/kobako/codec/handle_walk.rb:46-53 | a Hash the guest built comes back with its keys restored, each once, and of pairs whose keys are restored to one the later's value |
| HandleWalk.Handles.AllocHandle | lib/kobako/catalog/handles.rb:25-32 | allocation refuses unwrappable objects, then an exhausted id range, and otherwise binds the next id |
| HandleWalk.Handles.Fetch | lib/kobako/catalog/handles.rb:34-41 | fetching answers what restoring that Handle answers, an unknown id included |
| HandleWalk.Handles.Wrap | lib/kobako/codec/handle_walk.rb:32-40 | the walk that fills the table in place computes `DeepWrap`, raises included |
| HandleWalk.Handles.WrapHash | lib/kobako/codec/handle_walk.rb:76-87 | the loop that fills a Hash in place computes `WrapPairs` |
| Hashtable.Hashtable.Lookup | crates/kobako-runtime/src/hashtable.rs:27-29 | a get answers an object exactly when it is the one at the key and something holds it |
| Hashtable.Hashtable.Add | crates/kobako-runtime/src/hashtable.rs:31-37 | an insert sweeps and doubles as `Insert` says |
| Hashtable.Hashtable.Remove | crates/kobako-runtime/src/hashtable.rs:41-43 | a remove takes the key out and answers the object that was there exactly when something holds it |
| Hashtable.SweepsAmortised | crates/kobako-runtime/src/hashtable.rs:8-37 | over any run, the entries all sweeps looked at are at most twice the insertions, and the table holds at most the greater of 16 and twice what the last sweep left |
| Hashtable.SweepsUnseen | crates/kobako-runtime/src/hashtable.rs:26-43 | after any run, a get finds an object exactly when it was the last inserted at the key, not removed since, and is still held |
| Descriptors.Descriptors.constructor | crates/kobako-wasmtime/src/descriptors.rs:54-90 | a new table holds stdin, the two Channels and one root per Mount from 3 on, and no more |
| Descriptors.Descriptors.Take | crates/kobako-wasmtime/src/descriptors.rs:117-121 | removing frees the number and answers what stood there |
| Descriptors.Descriptors.Install | crates/kobako-wasmtime/src/descriptors.rs:125-128 | placing uses the number and frees none |
| Descriptors.Descriptors.FindUnused | crates/kobako-wasmtime/src/descriptors.rs:134-145 | the search computes `LowestUnused`, whose answer `AllocatesLeast` fixes |
| Descriptors.Descriptors.Renumbered | crates/kobako-wasmtime/src/preview1/fd.rs:448-463 | renumbering moves one open descriptor onto another and frees the number it left, and answers a bad descriptor, changing nothing, exactly where either is not open |
| Descriptors.LowestUnusedIsLeast | crates/kobako-wasmtime/src/descriptors.rs:134-145 | while used and freed numbers are apart and fill an initial segment, the number found is the least not in use, and there is none exactly when the limit is met or no number is left |
| Descriptors.AllocatesLeast | crates/kobako-wasmtime/src/descriptors.rs:117-145 | after every run of opens, closes and renumberings, an open changes nothing exactly when the limit is met or no number is left, and else puts the file at the least number not in use and touches no other |
| Descriptors.RunFills | crates/kobako-wasmtime/src/descriptors.rs:54-145 | every such run keeps used and freed numbers filling an initial segment and never opens past the limit |
| Descriptors.WithinLimitExactly | crates/kobako-wasmtime/src/descriptors.rs:48-90 | the table stays within its limit through every run if and only if the standard streams and Mounts fit it |
| Catalog.ConstantNameExactly | crates/kobako/src/snippet.rs:85-94 | a constant name is a capital followed by letters, digits and underscores, at most 65534 in all |
| Catalog.StartsWithIsSegmentPrefix | crates/kobako/src/catalog.rs:68-74 | for a constant-form path, the raw test for its text and `::` decides proper segment prefix of any string |
| Catalog.ConflictsExactly | crates/kobako/src/catalog.rs:68-74 | two constant-form paths conflict exactly when the segments of one begin the other's |
| Catalog.AlwaysAntichain | crates/kobako/src/catalog.rs:26-74 | after any sequence of binds, refused ones among them, no bound path equals or encloses another and none is reserved |
| Catalog.Catalog.Bind | crates/kobako/src/catalog.rs:48-66 | a bind is accepted exactly for an unreserved constant-form path comparable with none bound, adds it last, and otherwise changes nothing |
| Catalog.Catalog.Collides | crates/kobako/src/catalog.rs:68-74 | the scan by string tests finds exactly a path comparable by segments |
| Catalog.Catalog.Lookup | crates/kobako/src/catalog.rs:76-81 | a lookup answers the one object bound at the path, and none otherwise |
| Snippets.SnippetTable.Preload | crates/kobako/src/snippet.rs:26-46 | a source is added last unless its name is no constant or taken, so names stay distinct |
| Snippets.SnippetTable.PutInPlace | crates/kobako/src/snippet.rs:74-81 | the rewrite in place makes the k-th source the k-th bytecode and leaves everything else where it was, for an answer of any length |
| Snippets.CompiledExactly | crates/kobako/src/snippet.rs:74-81 | a source with k sources before it becomes the k-th bytecode if there is one, and everything else stays as it was |
| Snippets.TwinsAgree | lib/kobako/catalog/snippets.rb:16-93 | the Ruby projection by entry gives the same table as the Rust rewrite in place, for an answer of any length |
| Snippets.TwinTable.Compile | lib/kobako/catalog/snippets.rb:25-35 | the Ruby table asks for bytecode once in its life and then shows exactly that table; without an answer it shows its sources |
| Extensions.Extensions.AssertDependencies | crates/kobako/src/extension.rs:150-168 | the check passes exactly when every declared dependency is installed, and only a pass is remembered |
| Extensions.Extensions.Resolve | crates/kobako/src/extension.rs:172-196 | each provider asked for is called once, and its one object serves every path it backs, in order |
| Extensions.AskedExactly | crates/kobako/src/extension.rs:172-182 | the backends asked for are exactly those filled in by each invocation, in the order installed |
| Extensions.SharedExactly | crates/kobako/src/extension.rs:170-196 | paths with one provider share the object of its one call; paths with two have the objects of two calls, equal only if these answered equal objects |
| Registry.RegistryCell.SealTables | crates/kobako/src/sandbox.rs:70-86 | a seal always leaves the registry sealed, compiles only an open one and only when asked, and reports a panic |
| Registry.Reachable | crates/kobako/src/sandbox.rs:55-384 | over every order of registrations and concurrent invocations: names stay distinct, paths an antichain, nothing is compiled while open, and no invocation runs with an unmet dependency |
| Registry.RegisteredExactly | crates/kobako/src/sandbox.rs:56-63 | over every run, a bind, a preload or an install adds exactly what was asked, last, where name and path allow, and is refused once sealed |
| Registry.ExtsFromEvents | crates/kobako/src/extension.rs:126-142 | the installed Extensions are exactly those an earlier event installed |
| Registry.RanWithDependencies | crates/kobako/src/sandbox.rs:369-384 | each dependency of each Extension installed before an invocation that ran was installed too |
| Registry.SealsExactly | crates/kobako/src/sandbox.rs:65-384 | the seal keeps the tables, asks the engine exactly when the registry was open, every dependency is installed and a source is there, and tells the invocation a panic, an unmet dependency or the sealed tables |
| Registry.SealedForever | crates/kobako/src/sandbox.rs:55-87 | once sealed, no later event changes the tables or asks the engine |
| Registry.OneTable | crates/kobako/src/sandbox.rs:369-384 | any two invocations of a run that run at all see one table |
| Registry.CompiledOnce | crates/kobako/src/sandbox.rs:65-87 | the engine is asked at most once, with every dependency met, and the table left is the one it was shown with its sources replaced by position, or as it was when nothing came back |
| Dispatch.CatalogHandler.AnswerCall | crates/kobako/src/dispatch.rs:52-80 | the handler, with a fresh Yielder per frame and one shared Handle table, answers what `Answer` says |
| Dispatch.CatalogHandler.DispatchCall | crates/kobako/src/dispatch.rs:108-114 | the handler's answer is never `None` |
| Dispatch.BrokenIsOwn | crates/kobako/src/yielder.rs:132-160 | a frame ends broken exactly when it has a block and one of its own yields broke |
| Dispatch.EveryFrameRight | crates/kobako/src/dispatch.rs:52-113 | in every execution, every call at every nesting answers Break exactly when one of its own yields was a break, otherwise its receiver's own body or fault, or Undefined when it reached none; and every id issued or looked up at any nesting names one object |
| Dispatch.NothingSkipped | crates/kobako/src/dispatch.rs:52-80 | every call that reached its receiver, at every nesting, was carried out in full: each call of each block is answered, each object handed out has an id, each id asked about was looked up |
| Dispatch.HandleKeepsNaming | crates/kobako/src/handles.rs:30-44 | an id, issued before an execution or at any nesting of it, is issued once, names its object at the end, and is found to name it by every later lookup of any frame |
| Dispatch.ResolvedFirst | crates/kobako/src/dispatch.rs:85-95 | a path this invocation resolves is answered ahead of its sealed binding |
| Dispatch.ReachesExactly | crates/kobako/src/dispatch.rs:56-103 | a call reaches its receiver exactly when its target stands for an object, first bound at the path or named by the id, that does not hide the method; else it answers Undefined and changes nothing |
| Dispatch.Yielder.TakeReply | crates/kobako/src/yielder.rs:132-160 | the receiver is handed the block's body, or the failure its reply stands for, and only a break breaks the frame |
| Dispatch.PropagatedYield | crates/kobako/src/yielder.rs:62-79 | a receiver that hands up its first failed yield answers Break, a Block fault, a Runtime fault for its own argument or an Internal fault, as the yield failed |
| Gate.RegressionMeans | benchmark/support/comparator.rb:232-237 | a regression of some percent is a wall time that much longer or a rate that much lower |
| Gate.JudgedExactly | benchmark/support/comparator.rb:121-180 | a row is a finding if and only if its gated figure (wall time where recorded, else rate) and the anchor's are both present and nonzero and it regressed past 10%, its own band and the archive's; the figure and percentage are unique |
| Gate.FindingReports | benchmark/support/comparator.rb:121-142 | a finding reports the row, the figure now and at the anchor, and the percentage |
| Gate.ArchiveChangesExactly | benchmark/support/comparator.rb:121-199 | the archive changes a row's verdict if and only if the regression is past the floor and the row's own band but not past the archive's, and a Widening then names the row |
| Gate.WideningExactly | benchmark/support/comparator.rb:168-199 | a row is named as widened exactly when the archive's band, twice the move and at most 30%, is past the floor and the row's own |
| Gate.FindingsBounded | benchmark/support/comparator.rb:121-142 | a finding is always past the floor and the row's own band, and a regression past that band and 30% is always one |
| Gate.CompareExactly | benchmark/support/comparator.rb:82-87 | a run's findings are exactly those of its rows that the anchor has too |
| Gate.EveryRegressionReported | benchmark/support/comparator.rb:82-142 | every such row that regressed past the floor and both bands is reported, with its percentage |
| Gate.NothingHiddenSilently | benchmark/support/comparator.rb:82-199 | a comparison that reports no Widening flags the same rows, in order and by the same amount, as one without the archive |
| Stats.SortIsSort | benchmark/support/stats.rb:29-29 | sorting gives a sorted permutation |
| Stats.MedianExactly | benchmark/support/stats.rb:26-34 | the median is the mean of the two middle samples in order, one and the same for an odd count, and zero of none |
| Stats.MedianRobust | benchmark/support/stats.rb:26-34 | with fewer than half of the samples replaced by anything, the median stays within every range that holds the others |
| Stats.MedianSplits | benchmark/support/stats.rb:26-34 | at least half of the samples are no greater than the median and at least half no less |

## Left out

- The VFS, the Filesystem kinds, the envelope codecs and the host ABI endpoint: other components, with their own contracts.
- Deadlock freedom across several locks, and fairness among competing writers: the lock promises neither.
- Asynchronous `Thread#kill` inside the pool: an exception between a claim and its `ensure` is not an event.
- Overflow of the lock's counters and of the pool's and the table's sizes: they are unbounded integers, proved never negative.
- The wording of refusals and faults, where it is not part of what is compared.
- NaN as a Hash key, which Ruby does not find again: equal keys are equal values.
- The process-wide Module cache in front of the artifact directory, and the checks that the directory is private: lookups and flag tests.
- Flags, Grants and Mount registration: the same refusal of a repeated name as the registrations modelled.
- Opening a Mount's root failing while a descriptor table is made, and more Mounts than descriptor numbers: `new` then makes no table.
- Validation of options and timeouts, value carriers, and the benchmark runner: easy members.
