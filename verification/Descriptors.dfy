/** The guest's descriptor table of `crates/kobako-wasmtime/src/descriptors.rs`, and the two calls that
    place descriptors in it. Numbering follows `alloc_fd` and section 2.14, File Descriptor Allocation,
    of POSIX.1-2017 System Interfaces: the lowest number not in use. */
module Descriptors {
  import opened Wrappers

  const MAX_FD: nat := 0xffff_ffff

  datatype Errno = Badf

  datatype Table<D> = Table(used: map<nat, D>, free: set<nat>, limit: Option<nat>)

  ghost function Least(s: set<nat>): (m: nat)
    requires s != {}
    ensures m in s && forall x :: x in s ==> m <= x
  {
    var x :| x in s;
    if s == {x} then x
    else
      assert s == (s - {x}) + {x};
      var y := Least(s - {x});
      if x < y then x else y
  }

  ghost function Greatest(s: set<nat>): (m: nat)
    requires s != {}
    ensures m in s && forall x :: x in s ==> x <= m
  {
    var x :| x in s;
    if s == {x} then x
    else
      assert s == (s - {x}) + {x};
      var y := Greatest(s - {x});
      if x > y then x else y
  }

  function Remove<D>(t: Table<D>, fd: nat): (Table<D>, Option<D>) {
    if fd in t.used then (t.(used := t.used - {fd}, free := t.free + {fd}), Some(t.used[fd])) else (t, None)
  }

  function Place<D>(t: Table<D>, fd: nat, d: D): Table<D> {
    t.(used := t.used[fd := d], free := t.free - {fd})
  }

  predicate Full<D>(t: Table<D>) { t.limit.Some? && |t.used| >= t.limit.value }

  ghost function LowestUnused<D>(t: Table<D>): Option<nat> {
    if Full(t) then None
    else if t.free != {} then Some(Least(t.free))
    else if t.used == map[] then Some(0)
    else
      assert t.used.Keys != {};
      var last := Greatest(t.used.Keys);
      if last < MAX_FD then Some(last + 1) else None
  }

  /** `path_open`, once the file it names is open. */
  ghost function Open<D>(t: Table<D>, d: D): Table<D> {
    var fd := LowestUnused(t);
    if fd.Some? then Place(t, fd.value, d) else t
  }

  /** `fd_renumber`, which answers a bad descriptor where either is not open. */
  function Renumber<D>(t: Table<D>, from: nat, to: nat): Table<D> {
    if from !in t.used || to !in t.used || from == to then t
    else
      var (t1, moved) := Remove(t, from);
      var (t2, replaced) := Remove(t1, to);
      if moved.Some? then Place(t2, to, moved.value) else t2
  }

  /** The numbers in use and the numbers freed are apart and together fill `0..n`. */
  ghost predicate Fills<D>(t: Table<D>, n: nat) {
    && n <= MAX_FD + 1
    && t.used.Keys !! t.free
    && forall i: nat :: i < n <==> i in t.used || i in t.free
  }

  /** On a table the calls have made, the number found is the least not in use; there is none exactly
      when the limit is met or every number is taken. */
  lemma LowestUnusedIsLeast<D>(t: Table<D>, n: nat)
    requires Fills(t, n)
    ensures LowestUnused(t).Some? <==>
            !(t.limit.Some? && |t.used| >= t.limit.value) && exists i: nat :: i <= MAX_FD && i !in t.used
    ensures LowestUnused(t).Some? ==>
              var fd := LowestUnused(t).value;
              fd !in t.used && fd <= MAX_FD && fd <= n && forall i: nat :: i < fd ==> i in t.used
  {
    var fd := LowestUnused(t);
    if fd.Some? {
      assert fd.value !in t.used;
    } else if !Full(t) {
      assert t.free == {} && Greatest(t.used.Keys) in t.used;
    }
  }

  datatype Op<D> = Opens(d: D) | Closes(fd: nat) | Renumbers(from: nat, to: nat)

  ghost function Step<D>(t: Table<D>, op: Op<D>): Table<D> {
    match op
    case Opens(d) => Open(t, d)
    case Closes(fd) => Remove(t, fd).0
    case Renumbers(from, to) => Renumber(t, from, to)
  }

  lemma StepFills<D>(t: Table<D>, n: nat, op: Op<D>) returns (n': nat)
    requires Fills(t, n)
    ensures Fills(Step(t, op), n')
  {
    n' := n;
    if op.Opens? {
      LowestUnusedIsLeast(t, n);
      var fd := LowestUnused(t);
      if fd.Some? && fd.value == n {
        n' := n + 1;
      }
    }
  }

  ghost function After<D>(t: Table<D>, ops: seq<Op<D>>): Table<D> {
    if ops == [] then t else Step(After(t, ops[..|ops| - 1]), ops[|ops| - 1])
  }

  lemma StepSize<D>(t: Table<D>, n: nat, op: Op<D>)
    requires Fills(t, n)
    ensures |Step(t, op).used| <= |t.used| || (op.Opens? && !Full(t) && |Step(t, op).used| == |t.used| + 1)
    ensures Step(t, op).limit == t.limit
  {
  }

  /** Stdin, the two Channels, and one preopen per Mount. */
  ghost predicate Initial<D>(t: Table<D>, mounts: nat) {
    t.free == {} && (forall i: nat :: i in t.used <==> i < 3 + mounts) && 3 + mounts <= MAX_FD + 1
  }

  lemma {:induction false} RunFills<D>(t: Table<D>, ops: seq<Op<D>>, mounts: nat) returns (n: nat)
    requires Initial(t, mounts)
    ensures Fills(After(t, ops), n) && After(t, ops).limit == t.limit
    ensures t.limit.Some? ==>
              |After(t, ops).used| <= (if t.limit.value < |t.used| then |t.used| else t.limit.value)
  {
    if ops == [] {
      n := 3 + mounts;
    } else {
      var before, op := ops[..|ops| - 1], ops[|ops| - 1];
      var m := RunFills(t, before, mounts);
      n := StepFills(After(t, before), m, op);
      StepSize(After(t, before), m, op);
    }
  }

  /** Over every run of opens, closes and renumberings: an open is refused, and changes nothing, exactly
      when the limit is met or no number is left, and otherwise puts the file at the least number not
      in use and touches no other. */
  lemma AllocatesLeast<D>(t: Table<D>, ops: seq<Op<D>>, mounts: nat, d: D)
    requires Initial(t, mounts)
    ensures var s, s' := After(t, ops), After(t, ops + [Opens(d)]);
            if (s.limit.Some? && |s.used| >= s.limit.value) || forall i: nat :: i <= MAX_FD ==> i in s.used
            then s' == s
            else exists fd: nat :: fd !in s.used && (forall i: nat :: i < fd ==> i in s.used) && s'.used == s.used[fd := d]
  {
    var s := After(t, ops);
    var n := RunFills(t, ops, mounts);
    LowestUnusedIsLeast(s, n);
    assert (ops + [Opens(d)])[..|ops|] == ops;
    assert After(t, ops + [Opens(d)]) == Open(s, d);
  }

  /** The table holds at most `limit` descriptors through every run exactly when it starts within it:
      `new` places the Mounts' roots whatever the limit, and only opening asks. */
  lemma WithinLimitExactly<D>(t: Table<D>, mounts: nat)
    requires Initial(t, mounts) && t.limit.Some?
    ensures (forall ops :: |After(t, ops).used| <= t.limit.value) <==> 3 + mounts <= t.limit.value
  {
    InitialSize(t, mounts);
    if 3 + mounts <= t.limit.value {
      forall ops ensures |After(t, ops).used| <= t.limit.value {
        var n := RunFills(t, ops, mounts);
      }
    } else {
      var none: seq<Op<D>> := [];
      assert After(t, none) == t;
      assert |After(t, none).used| > t.limit.value;
    }
  }

  lemma {:induction false} Numbers(n: nat, s: set<nat>)
    requires forall i: nat :: i in s <==> i < n
    ensures |s| == n
  {
    if n > 0 {
      Numbers(n - 1, s - {n - 1});
      assert s == (s - {n - 1}) + {n - 1};
    } else {
      assert s == {};
    }
  }

  lemma InitialSize<D>(t: Table<D>, mounts: nat)
    requires Initial(t, mounts)
    ensures |t.used| == 3 + mounts
  {
    Numbers(3 + mounts, t.used.Keys);
  }

  class Descriptors<D> {
    var used: map<nat, D>
    var free: set<nat>
    const limit: Option<nat>

    ghost function View(): Table<D>
      reads this
    {
      Table(used, free, limit)
    }

    constructor (stdin: D, stdout: D, stderr: D, mounts: seq<D>, limit: Option<nat>)
      requires 3 + |mounts| <= MAX_FD + 1
      ensures Initial(View(), |mounts|) && this.limit == limit
      ensures used[0] == stdin && used[1] == stdout && used[2] == stderr
      ensures forall i :: 0 <= i < |mounts| ==> used[3 + i] == mounts[i]
    {
      var table: map<nat, D> := map[0 := stdin, 1 := stdout, 2 := stderr];
      var fd := 3;
      while fd < 3 + |mounts|
        invariant 3 <= fd <= 3 + |mounts|
        invariant forall i: nat :: i in table <==> i < fd
        invariant table[0] == stdin && table[1] == stdout && table[2] == stderr
        invariant forall i :: 0 <= i < fd - 3 ==> table[3 + i] == mounts[i]
      {
        table := table[fd := mounts[fd - 3]];
        fd := fd + 1;
      }
      used, free, this.limit := table, {}, limit;
    }

    method Take(fd: nat) returns (d: Option<D>)
      modifies this
      ensures (View(), d) == Remove(old(View()), fd)
      ensures d == if fd in old(used) then Some(old(used)[fd]) else None
      ensures used == old(used) - {fd} && free == old(free) + (if fd in old(used) then {fd} else {})
    {
      if fd !in used {
        return None;
      }
      d := Some(used[fd]);
      used := used - {fd};
      free := free + {fd};
    }

    method Install(fd: nat, d: D)
      modifies this
      ensures View() == Place(old(View()), fd, d)
      ensures used == old(used)[fd := d] && free == old(free) - {fd}
    {
      free := free - {fd};
      used := used[fd := d];
    }

    method FindUnused() returns (fd: Option<nat>)
      ensures fd == LowestUnused(View())
    {
      if limit.Some? && |used| >= limit.value {
        return None;
      }
      if free != {} {
        ghost var least := Least(free);
        var first :| first in free && forall x :: x in free ==> first <= x;
        return Some(first);
      }
      if used == map[] {
        return Some(0);
      }
      assert used.Keys != {};
      ghost var greatest := Greatest(used.Keys);
      var last :| last in used && forall x :: x in used ==> x <= last;
      return if last < MAX_FD then Some(last + 1) else None;
    }

    /** Answers a bad descriptor, and changes nothing, exactly where either is not open. */
    method Renumbered(from: nat, to: nat) returns (r: Result<(), Errno>)
      modifies this
      ensures View() == Renumber(old(View()), from, to)
      ensures r == if from in old(used) && to in old(used) then Success(()) else Failure(Badf)
      ensures if r.Success? && from != to
              then used == old(used)[to := old(used)[from]] - {from} && free == old(free) + {from} - {to}
              else View() == old(View())
    {
      if from !in used || to !in used {
        return Failure(Badf);
      }
      if from == to {
        return Success(());
      }
      var moved := Take(from);
      var replaced := Take(to);
      Install(to, moved.value);
      return Success(());
    }
  }
}
