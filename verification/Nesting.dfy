/** Host values as Ruby holds them, and the depth bound of `lib/kobako/codec/nesting.rb`.

    A container may sit in the value itself or behind a `Ref` into a heap, so values may share
    containers and form cycles. Every walk counts depth and stops at the bound. */
module Nesting {
  const MAX_NESTING_DEPTH := 128

  /** What an object that is no wire type is to the codec: any object, one whose class includes
      Enumerable, or one the Handle table refuses. */
  datatype Kind = Plain | Enumerable | Unwrappable

  /** `Atom` stands for nil, booleans, floats, strings and symbols. */
  datatype Value =
    | Atom(a: nat)
    | Int(i: int)
    | Handle(id: int)
    | Object(o: nat, kind: Kind)
    | Arr(elements: seq<Value>)
    | Hash(pairs: seq<Pair>)
    | Ref(r: nat)

  datatype Pair = Pair(key: Value, value: Value)

  type Heap = map<nat, Value>

  predicate IsContainer(v: Value) { v.Arr? || v.Hash? }

  /** The value `v` stands for; a reference to no container is an object of its own. */
  function At(heap: Heap, v: Value): (x: Value)
    ensures !x.Ref?
  {
    if !v.Ref? then v
    else if v.r in heap && IsContainer(heap[v.r]) then heap[v.r]
    else Object(v.r, Plain)
  }

  predicate IsEnumerable(heap: Heap, v: Value) {
    IsContainer(At(heap, v)) || (At(heap, v).Object? && At(heap, v).kind.Enumerable?)
  }

  function Keys(pairs: seq<Pair>): (ks: seq<Value>) {
    seq(|pairs|, i requires 0 <= i < |pairs| => pairs[i].key)
  }

  function Values(pairs: seq<Pair>): (vs: seq<Value>) {
    seq(|pairs|, i requires 0 <= i < |pairs| => pairs[i].value)
  }

  /** Whether `assert_within_bound` returns rather than raises. */
  predicate WithinBound(heap: Heap, v: Value, depth: nat)
    decreases MAX_NESTING_DEPTH - depth, 1
  {
    match At(heap, v)
    case Arr(elements) => MembersWithinBound(heap, elements, depth)
    case Hash(pairs) =>
      MembersWithinBound(heap, Keys(pairs), depth) && MembersWithinBound(heap, Values(pairs), depth)
    case _ => true
  }

  predicate MembersWithinBound(heap: Heap, members: seq<Value>, depth: nat)
    decreases MAX_NESTING_DEPTH - depth, 0
  {
    if members == [] then true
    else if depth >= MAX_NESTING_DEPTH then false
    else forall m :: m in members && IsEnumerable(heap, m) ==> WithinBound(heap, m, depth + 1)
  }

  // The bound, said of paths.

  ghost function Members(heap: Heap, v: Value): seq<Value> {
    match At(heap, v)
    case Arr(elements) => elements
    case Hash(pairs) => Keys(pairs) + Values(pairs)
    case _ => []
  }

  ghost predicate Linked(heap: Heap, path: seq<Value>, i: nat)
    requires i < |path|
  {
    Members(heap, path[i]) != [] && (i + 1 < |path| ==> path[i + 1] in Members(heap, path[i]))
  }

  /** A descent through non-empty containers, each a member of the one before. */
  ghost predicate Descent(heap: Heap, path: seq<Value>) {
    forall i :: 0 <= i < |path| ==> Linked(heap, path, i)
  }

  /** One level of the walk, in terms of all members together. */
  lemma OneLevel(heap: Heap, v: Value, depth: nat)
    ensures WithinBound(heap, v, depth) <==>
            Members(heap, v) == [] ||
            (depth < MAX_NESTING_DEPTH && forall m :: m in Members(heap, v) ==> WithinBound(heap, m, depth + 1))
  {
    match At(heap, v) {
      case Hash(pairs) =>
        assert Members(heap, v) == Keys(pairs) + Values(pairs);
        assert forall m :: m in Members(heap, v) <==> m in Keys(pairs) || m in Values(pairs);
        assert |Keys(pairs)| == |Values(pairs)| == |pairs|;
      case _ =>
    }
  }

  lemma {:induction false} RefusedDescends(heap: Heap, v: Value, depth: nat) returns (path: seq<Value>)
    requires !WithinBound(heap, v, depth)
    ensures path != [] && path[0] == v && Descent(heap, path) && |path| + depth > MAX_NESTING_DEPTH
    decreases MAX_NESTING_DEPTH - depth
  {
    OneLevel(heap, v, depth);
    if depth >= MAX_NESTING_DEPTH {
      path := [v];
    } else {
      var m :| m in Members(heap, v) && !WithinBound(heap, m, depth + 1);
      var rest := RefusedDescends(heap, m, depth + 1);
      Join(heap, [v], rest);
      path := [v] + rest;
    }
  }

  lemma {:induction false} DescentRefused(heap: Heap, path: seq<Value>, depth: nat)
    requires path != [] && Descent(heap, path) && |path| + depth > MAX_NESTING_DEPTH
    ensures !WithinBound(heap, path[0], depth)
    decreases |path|
  {
    OneLevel(heap, path[0], depth);
    assert Linked(heap, path, 0);
    if depth < MAX_NESTING_DEPTH {
      Suffix(heap, path, 1);
      DescentRefused(heap, path[1..], depth + 1);
      assert path[1] in Members(heap, path[0]);
    }
  }

  /** On every heap, cyclic ones included, a value is refused exactly when some descent from it passes
      through more non-empty containers than the bound leaves room for. */
  lemma RefusedExactly(heap: Heap, v: Value, depth: nat)
    ensures !WithinBound(heap, v, depth) <==>
            exists path :: path != [] && path[0] == v && Descent(heap, path) && |path| + depth > MAX_NESTING_DEPTH
  {
    if !WithinBound(heap, v, depth) {
      var path := RefusedDescends(heap, v, depth);
    } else if path :| path != [] && path[0] == v && Descent(heap, path) && |path| + depth > MAX_NESTING_DEPTH {
      DescentRefused(heap, path, depth);
    }
  }

  /** `way` descends from `v` and comes back to a container it passed, the one at `at`. */
  ghost predicate ReachesCycle(heap: Heap, way: seq<Value>, at: nat) {
    && at < |way| && Descent(heap, way)
    && way[at] in Members(heap, way[|way| - 1])
  }

  lemma Suffix(heap: Heap, path: seq<Value>, at: nat)
    requires at <= |path| && Descent(heap, path)
    ensures Descent(heap, path[at..])
  {
    forall i | 0 <= i < |path[at..]|
      ensures Linked(heap, path[at..], i)
    {
      assert Linked(heap, path, at + i);
    }
  }

  lemma Join(heap: Heap, p: seq<Value>, q: seq<Value>)
    requires p != [] && q != [] && Descent(heap, p) && Descent(heap, q)
    requires q[0] in Members(heap, p[|p| - 1])
    ensures Descent(heap, p + q)
  {
    forall i | 0 <= i < |p + q|
      ensures Linked(heap, p + q, i)
    {
      assert if i < |p| then Linked(heap, p, i) else Linked(heap, q, i - |p|);
    }
  }

  lemma {:induction false} Lengthen(heap: Heap, way: seq<Value>, at: nat, n: nat) returns (path: seq<Value>)
    requires ReachesCycle(heap, way, at)
    ensures |path| >= n && path != [] && path[0] == way[0] && Descent(heap, path)
    ensures path[|path| - 1] == way[|way| - 1]
    decreases n
  {
    if n <= |way| {
      path := way;
    } else {
      var shorter := Lengthen(heap, way, at, n - 1);
      var round := way[at..];
      Suffix(heap, way, at);
      Join(heap, shorter, round);
      path := shorter + round;
    }
  }

  /** A value that reaches a cycle is refused at every starting depth. */
  lemma CycleRefused(heap: Heap, way: seq<Value>, at: nat, depth: nat)
    requires ReachesCycle(heap, way, at)
    ensures !WithinBound(heap, way[0], depth)
  {
    var path := Lengthen(heap, way, at, MAX_NESTING_DEPTH + 1);
    DescentRefused(heap, path, depth);
  }
}
