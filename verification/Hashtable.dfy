/** The table of weakly held objects of `crates/kobako-runtime/src/hashtable.rs`, swept when it has
    doubled.

    `dead` is every object nothing else holds any longer; an object never comes back from it, and a
    caller inserts only what it holds. */
module Hashtable {
  import opened Wrappers

  datatype Table<K, V> = Table(entries: map<K, V>, sweepAt: nat)

  function Held<V>(v: V, dead: set<V>): Option<V> { if v in dead then None else Some(v) }

  function Get<K, V>(entries: map<K, V>, key: K, dead: set<V>): Option<V> {
    if key in entries then Held(entries[key], dead) else None
  }

  function Living<K, V>(entries: map<K, V>, dead: set<V>): map<K, V> {
    map k | k in entries && entries[k] !in dead :: entries[k]
  }

  function Max(a: nat, b: nat): nat { if a < b then b else a }

  predicate Sweeps<K, V>(t: Table<K, V>) { |t.entries| >= t.sweepAt }

  function Swept<K, V>(t: Table<K, V>, dead: set<V>): Table<K, V> {
    if Sweeps(t) then
      var living := Living(t.entries, dead);
      Table(living, Max(|living| * 2, 16))
    else t
  }

  function Insert<K, V>(t: Table<K, V>, key: K, value: V, dead: set<V>): Table<K, V> {
    var s := Swept(t, dead);
    s.(entries := s.entries[key := value])
  }

  class Hashtable<K(==), V(==)> {
    var entries: map<K, V>
    var sweepAt: nat

    ghost function View(): Table<K, V>
      reads this
    {
      Table(entries, sweepAt)
    }

    constructor ()
      ensures View() == Table(map[], 0)
    {
      entries, sweepAt := map[], 0;
    }

    method Lookup(key: K, dead: set<V>) returns (found: Option<V>)
      ensures found == Get(entries, key, dead)
      ensures forall v :: found == Some(v) <==> key in entries && entries[key] == v && v !in dead
    {
      if key !in entries {
        return None;
      }
      return Held(entries[key], dead);
    }

    method Add(key: K, value: V, dead: set<V>)
      modifies this
      ensures View() == Insert(old(View()), key, value, dead)
    {
      if |entries| >= sweepAt {
        entries := Living(entries, dead);
        sweepAt := Max(|entries| * 2, 16);
      }
      entries := entries[key := value];
    }

    method Remove(key: K, dead: set<V>) returns (found: Option<V>)
      modifies this
      ensures View() == old(View()).(entries := old(entries) - {key})
      ensures found == Get(old(entries), key, dead)
      ensures forall v :: found == Some(v) <==> key in old(entries) && old(entries)[key] == v && v !in dead
    {
      found := Lookup(key, dead);
      entries := entries - {key};
    }
  }

  // Any run, beside a map that is never swept.

  datatype Op<K, V> =
    | Inserts(key: K, value: V)
    | Removes(key: K)
    | Gets(key: K)
    | Dies(value: V)

  /** `all` is the unswept map; `left` what the last sweep left, `since` the insertions from it on. */
  datatype World<K, V> = World(
    t: Table<K, V>, all: map<K, V>, dead: set<V>, scanned: nat, inserted: nat, left: nat, since: nat)

  function Start<K, V>(): World<K, V> { World(Table(map[], 0), map[], {}, 0, 0, 0, 0) }

  function Step<K, V>(w: World<K, V>, op: Op<K, V>): World<K, V> {
    match op
    case Inserts(key, value) =>
      var sweeps := Sweeps(w.t);
      w.(t := Insert(w.t, key, value, w.dead),
         all := w.all[key := value],
         scanned := w.scanned + (if sweeps then |w.t.entries| else 0),
         inserted := w.inserted + 1,
         left := if sweeps then |Swept(w.t, w.dead).entries| else w.left,
         since := if sweeps then 1 else w.since + 1)
    case Removes(key) => w.(t := w.t.(entries := w.t.entries - {key}), all := w.all - {key})
    case Gets(_) => w
    case Dies(value) => w.(dead := w.dead + {value})
  }

  /** A caller inserts only what it holds. */
  predicate Proper<K, V>(w: World<K, V>, op: Op<K, V>) { op.Inserts? ==> op.value !in w.dead }

  function After<K, V>(ops: seq<Op<K, V>>): World<K, V> {
    if ops == [] then Start() else Step(After(ops[..|ops| - 1]), ops[|ops| - 1])
  }

  ghost predicate ProperRun<K, V>(ops: seq<Op<K, V>>) {
    ops == [] || (ProperRun(ops[..|ops| - 1]) && Proper(After(ops[..|ops| - 1]), ops[|ops| - 1]))
  }

  /** The table keeps at least the live part of the unswept map and nothing beyond that map. */
  ghost predicate Agrees<K, V>(w: World<K, V>) {
    && (forall k :: k in w.t.entries ==> k in w.all && w.all[k] == w.t.entries[k])
    && (forall k :: k in w.all && w.all[k] !in w.dead ==> k in w.t.entries)
  }

  ghost predicate Paid<K, V>(w: World<K, V>) {
    && w.since <= w.inserted && w.scanned <= 2 * (w.inserted - w.since)
    && |w.t.entries| <= w.left + w.since && 2 * w.left <= w.t.sweepAt
    && |w.t.entries| <= w.t.sweepAt <= Max(2 * w.left, 16)
  }

  lemma StepKeeps<K, V>(w: World<K, V>, op: Op<K, V>)
    requires Agrees(w) && Paid(w) && Proper(w, op)
    ensures Agrees(Step(w, op)) && Paid(Step(w, op))
  {
  }

  lemma {:induction false} RunKeeps<K, V>(ops: seq<Op<K, V>>)
    requires ProperRun(ops)
    ensures Agrees(After(ops)) && Paid(After(ops))
  {
    if ops != [] {
      RunKeeps(ops[..|ops| - 1]);
      StepKeeps(After(ops[..|ops| - 1]), ops[|ops| - 1]);
    }
  }

  /** Over any run: the entries all sweeps looked at are at most twice the insertions, and the table
      never holds more than the greater of 16 and twice what the last sweep left. */
  lemma SweepsAmortised<K, V>(ops: seq<Op<K, V>>)
    requires ProperRun(ops)
    ensures After(ops).scanned <= 2 * After(ops).inserted
    ensures |After(ops).t.entries| <= Max(2 * After(ops).left, 16)
  {
    RunKeeps(ops);
  }

  predicate Touches<K(==), V>(op: Op<K, V>, key: K) { (op.Inserts? || op.Removes?) && op.key == key }

  /** The `i`th op inserts `value` at `key`, and nothing touches the key since. */
  ghost predicate InsertedAt<K, V>(ops: seq<Op<K, V>>, i: nat, key: K, value: V) {
    i < |ops| && ops[i] == Inserts(key, value) && forall j :: i < j < |ops| ==> !Touches(ops[j], key)
  }

  ghost predicate LastInserted<K, V>(ops: seq<Op<K, V>>, key: K, value: V) {
    exists i :: InsertedAt(ops, i, key, value)
  }

  lemma LastGrows<K, V>(before: seq<Op<K, V>>, op: Op<K, V>, key: K, value: V)
    ensures LastInserted(before + [op], key, value) <==>
            if Touches(op, key) then op == Inserts(key, value) else LastInserted(before, key, value)
  {
    var ops := before + [op];
    assert ops[|before|] == op;
    assert InsertedAt(ops, |before|, key, value) <==> op == Inserts(key, value);
    forall i: nat | i < |before|
      ensures InsertedAt(ops, i, key, value) <==> InsertedAt(before, i, key, value) && !Touches(op, key)
    {
      assert forall j :: 0 <= j < |before| ==> before[j] == ops[j];
      assert InsertedAt(ops, i, key, value) ==> !Touches(ops[|before|], key);
    }
  }

  lemma StepSees<K, V>(w: World<K, V>, op: Op<K, V>)
    ensures Step(w, op).dead == w.dead + (if op.Dies? then {op.value} else {})
    ensures Step(w, op).all ==
            if op.Inserts? then w.all[op.key := op.value] else if op.Removes? then w.all - {op.key} else w.all
  {
  }

  lemma {:induction false} AllIsLast<K, V>(ops: seq<Op<K, V>>, key: K, value: V)
    ensures key in After(ops).all && After(ops).all[key] == value <==> LastInserted(ops, key, value)
  {
    if ops != [] {
      var before, op := ops[..|ops| - 1], ops[|ops| - 1];
      AllIsLast(before, key, value);
      LastGrows(before, op, key, value);
      assert ops == before + [op];
      StepSees(After(before), op);
    }
  }

  lemma {:induction false} DeadIsDied<K, V>(ops: seq<Op<K, V>>, value: V)
    ensures value in After(ops).dead <==> Dies(value) in ops
  {
    if ops != [] {
      var before, op := ops[..|ops| - 1], ops[|ops| - 1];
      DeadIsDied(before, value);
      assert Dies(value) in ops <==> Dies(value) in before || op == Dies(value) by { assert ops == before + [op]; }
      StepSees(After(before), op);
    }
  }

  /** After any run, a `get` or a `remove` of a key finds an object exactly when it was the last inserted
      there, the key was not removed since, and something still holds it: no sweep is ever seen. */
  lemma SweepsUnseen<K, V>(ops: seq<Op<K, V>>, key: K, value: V)
    requires ProperRun(ops)
    ensures Get(After(ops).t.entries, key, After(ops).dead) == Some(value) <==>
            LastInserted(ops, key, value) && Dies(value) !in ops
  {
    RunKeeps(ops);
    AllIsLast(ops, key, value);
    DeadIsDied(ops, value);
  }
}
