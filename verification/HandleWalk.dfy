/** Host objects crossing as Handles: `lib/kobako/codec/handle_walk.rb` over the Handle table of
    `lib/kobako/catalog/handles.rb`. */
module HandleWalk {
  import opened Wrappers
  import opened Nesting

  const MAX_ID := 0x7fff_ffff
  const MSGPACK_INT_MIN := -0x8000_0000_0000_0000
  const MSGPACK_INT_MAX := 0xffff_ffff_ffff_ffff

  datatype Error = TooDeep | BadKey | CannotCross | Exhausted | UnknownHandle

  datatype Table = Table(entries: map<int, Value>, nextId: int)

  /** An answer and the table it leaves, which a raise leaves as far as it got. */
  datatype Walked<+T> = Walked(result: Result<T, Error>, table: Table)

  predicate PrimitiveType(v: Value) {
    v.Atom? || v.Handle? || (v.Int? && MSGPACK_INT_MIN <= v.i <= MSGPACK_INT_MAX)
  }

  predicate Representable(heap: Heap, v: Value, depth: nat)
    decreases MAX_NESTING_DEPTH - depth
  {
    depth <= MAX_NESTING_DEPTH &&
    match At(heap, v)
    case Arr(elements) => forall e :: e in elements ==> Representable(heap, e, depth + 1)
    case Hash(pairs) =>
      forall p :: p in pairs ==> Representable(heap, p.key, depth + 1) && Representable(heap, p.value, depth + 1)
    case x => PrimitiveType(x)
  }

  function Alloc(t: Table, x: Value): Walked<Value> {
    if x.Object? && x.kind.Unwrappable? then Walked(Failure(CannotCross), t)
    else if t.nextId > MAX_ID then Walked(Failure(Exhausted), t)
    else Walked(Success(Handle(t.nextId)), Table(t.entries[t.nextId := x], t.nextId + 1))
  }

  /** `hash[key] = value`: an equal key keeps its place and takes the new value. */
  function Put(pairs: seq<Pair>, key: Value, value: Value): seq<Pair> {
    if pairs == [] then [Pair(key, value)]
    else if pairs[0].key == key then [Pair(key, value)] + pairs[1..]
    else [pairs[0]] + Put(pairs[1..], key, value)
  }

  function Room(depth: nat): nat { if depth > MAX_NESTING_DEPTH then 0 else MAX_NESTING_DEPTH + 1 - depth }

  const CUT := Atom(0)

  /** `v` with every container in place down to the bound, each shared one wherever it is shared: what
      Ruby's `==` and `eql?` compare. */
  function Unfold(heap: Heap, v: Value, depth: nat): (u: Value)
    decreases Room(depth), 0
  {
    if depth > MAX_NESTING_DEPTH then CUT
    else
      match At(heap, v)
      case Arr(elements) => Arr(UnfoldEach(heap, elements, depth + 1))
      case Hash(pairs) => Hash(UnfoldPairs(heap, pairs, depth + 1))
      case x => x
  }

  function UnfoldEach(heap: Heap, vs: seq<Value>, depth: nat): (us: seq<Value>)
    ensures |us| == |vs|
    decreases Room(depth), |vs| + 1
  {
    if vs == [] then [] else [Unfold(heap, vs[0], depth)] + UnfoldEach(heap, vs[1..], depth)
  }

  function UnfoldPairs(heap: Heap, pairs: seq<Pair>, depth: nat): (us: seq<Pair>)
    ensures |us| == |pairs|
    decreases Room(depth), |pairs| + 1
  {
    if pairs == [] then []
    else [Pair(Unfold(heap, pairs[0].key, depth), Unfold(heap, pairs[0].value, depth))] +
         UnfoldPairs(heap, pairs[1..], depth)
  }

  function DeepWrap(heap: Heap, v: Value, t: Table, depth: nat): Walked<Value>
    decreases Room(depth), 0
  {
    if depth > MAX_NESTING_DEPTH then Walked(Failure(TooDeep), t)
    else
      match At(heap, v)
      case Arr(elements) =>
        var w := WrapEach(heap, elements, t, depth + 1);
        Walked(if w.result.Success? then Success(Arr(w.result.value)) else Failure(w.result.error), w.table)
      case Hash(pairs) =>
        var w := WrapPairs(heap, pairs, [], t, depth + 1);
        Walked(if w.result.Success? then Success(Hash(w.result.value)) else Failure(w.result.error), w.table)
      case x => if PrimitiveType(x) then Walked(Success(x), t) else Alloc(t, x)
  }

  function WrapEach(heap: Heap, vs: seq<Value>, t: Table, depth: nat): Walked<seq<Value>>
    decreases Room(depth), |vs| + 1
  {
    if vs == [] then Walked(Success([]), t)
    else
      var first := DeepWrap(heap, vs[0], t, depth);
      if first.result.Failure? then Walked(Failure(first.result.error), first.table)
      else
        var rest := WrapEach(heap, vs[1..], first.table, depth);
        Walked(if rest.result.Success? then Success([first.result.value] + rest.result.value) else rest.result, rest.table)
  }

  function WrapPairs(heap: Heap, pairs: seq<Pair>, wrapped: seq<Pair>, t: Table, depth: nat)
    : Walked<seq<Pair>>
    decreases Room(depth), |pairs| + 1
  {
    if pairs == [] then Walked(Success(wrapped), t)
    else if !Representable(heap, pairs[0].key, depth) then Walked(Failure(BadKey), t)
    else
      var first := DeepWrap(heap, pairs[0].value, t, depth);
      if first.result.Failure? then Walked(Failure(first.result.error), first.table)
      else
        var key := Unfold(heap, pairs[0].key, depth);
        WrapPairs(heap, pairs[1..], Put(wrapped, key, first.result.value), first.table, depth)
  }

  function DeepRestore(v: Value, t: Table): Result<Value, Error> {
    match v
    case Arr(elements) =>
      var r := RestoreEach(elements, t);
      if r.Success? then Success(Arr(r.value)) else Failure(r.error)
    case Hash(pairs) =>
      var r := RestorePairs(pairs, [], t);
      if r.Success? then Success(Hash(r.value)) else Failure(r.error)
    case Handle(id) => if id in t.entries then Success(t.entries[id]) else Failure(UnknownHandle)
    case x => Success(x)
  }

  function RestoreEach(vs: seq<Value>, t: Table): Result<seq<Value>, Error> {
    if vs == [] then Success([])
    else
      var first := DeepRestore(vs[0], t);
      if first.Failure? then Failure(first.error)
      else
        var rest := RestoreEach(vs[1..], t);
        if rest.Success? then Success([first.value] + rest.value) else rest
  }

  function RestorePairs(pairs: seq<Pair>, done: seq<Pair>, t: Table)
    : Result<seq<Pair>, Error>
    decreases pairs
  {
    if pairs == [] then Success(done)
    else
      var first := RestorePair(pairs[0], t);
      if first.Failure? then Failure(first.error)
      else RestorePairs(pairs[1..], Put(done, first.value.key, first.value.value), t)
  }

  function RestorePair(p: Pair, t: Table): Result<Pair, Error> {
    var key := DeepRestore(p.key, t);
    var value := DeepRestore(p.value, t);
    if key.Failure? then Failure(key.error)
    else if value.Failure? then Failure(value.error)
    else Success(Pair(key.value, value.value))
  }

  // Unfolding.

  lemma {:induction false} UnfoldEachAt(heap: Heap, vs: seq<Value>, depth: nat)
    ensures forall i :: 0 <= i < |vs| ==> UnfoldEach(heap, vs, depth)[i] == Unfold(heap, vs[i], depth)
  {
    if vs != [] {
      UnfoldEachAt(heap, vs[1..], depth);
    }
  }

  lemma {:induction false} UnfoldPairsAt(heap: Heap, pairs: seq<Pair>, depth: nat)
    ensures forall i :: 0 <= i < |pairs| ==>
              UnfoldPairs(heap, pairs, depth)[i].key == Unfold(heap, pairs[i].key, depth) &&
              UnfoldPairs(heap, pairs, depth)[i].value == Unfold(heap, pairs[i].value, depth)
  {
    if pairs != [] {
      UnfoldPairsAt(heap, pairs[1..], depth);
    }
  }

  /** A value with every container in place. */
  predicate InPlace(v: Value) {
    match v
    case Arr(elements) => forall e :: e in elements ==> InPlace(e)
    case Hash(pairs) => forall p :: p in pairs ==> InPlacePair(p)
    case Ref(_) => false
    case _ => true
  }

  predicate InPlacePair(p: Pair) { InPlace(p.key) && InPlace(p.value) }

  /** A value within the bound with every container in place unfolds to itself. */
  lemma {:induction false} UnfoldSame(heap: Heap, v: Value, depth: nat)
    requires InPlace(v) && Representable(heap, v, depth)
    ensures Unfold(heap, v, depth) == v
    decreases Room(depth)
  {
    MembersRepresentable(heap, v, depth);
    match v {
      case Arr(elements) =>
        UnfoldEachAt(heap, elements, depth + 1);
        forall i | 0 <= i < |elements| ensures Unfold(heap, elements[i], depth + 1) == elements[i] {
          assert elements[i] in Members(heap, v);
          UnfoldSame(heap, elements[i], depth + 1);
        }
        assert UnfoldEach(heap, elements, depth + 1) == elements;
      case Hash(pairs) =>
        var us := UnfoldPairs(heap, pairs, depth + 1);
        UnfoldPairsAt(heap, pairs, depth + 1);
        forall i | 0 <= i < |pairs| ensures us[i] == pairs[i] {
          assert InPlacePair(pairs[i]) && pairs[i] in pairs;
          UnfoldSame(heap, pairs[i].key, depth + 1);
          UnfoldSame(heap, pairs[i].value, depth + 1);
        }
        assert us == pairs;
      case _ =>
    }
  }

  lemma {:induction false} UnfoldRepresentable(heap: Heap, v: Value, depth: nat)
    requires Representable(heap, v, depth)
    ensures Representable(heap, Unfold(heap, v, depth), depth)
    decreases Room(depth)
  {
    match At(heap, v) {
      case Arr(elements) =>
        var us := UnfoldEach(heap, elements, depth + 1);
        UnfoldEachAt(heap, elements, depth + 1);
        forall i | 0 <= i < |us| ensures Representable(heap, us[i], depth + 1) {
          assert elements[i] in elements;
          UnfoldRepresentable(heap, elements[i], depth + 1);
        }
      case Hash(pairs) =>
        var us := UnfoldPairs(heap, pairs, depth + 1);
        UnfoldPairsAt(heap, pairs, depth + 1);
        forall i | 0 <= i < |us|
          ensures Representable(heap, us[i].key, depth + 1) && Representable(heap, us[i].value, depth + 1)
        {
          assert pairs[i] in pairs;
          UnfoldRepresentable(heap, pairs[i].key, depth + 1);
          UnfoldRepresentable(heap, pairs[i].value, depth + 1);
        }
      case _ =>
    }
  }

  // What a successful wrap hands to the packer.

  lemma MembersRepresentable(heap: Heap, v: Value, depth: nat)
    requires Representable(heap, v, depth)
    ensures forall m :: m in Members(heap, v) ==> Representable(heap, m, depth + 1)
    ensures Members(heap, v) != [] ==> depth < MAX_NESTING_DEPTH
  {
    match At(heap, v) {
      case Hash(pairs) =>
        forall m | m in Keys(pairs) + Values(pairs)
          ensures Representable(heap, m, depth + 1)
        {
          var p :| p in pairs && (p.key == m || p.value == m);
        }
      case _ =>
    }
    assert Members(heap, v) != [] ==> Members(heap, v)[0] in Members(heap, v);
  }

  /** One bound for three walks: whatever is representable at a depth passes Nesting there. */
  lemma {:induction false} RepresentableWithin(heap: Heap, v: Value, depth: nat)
    requires Representable(heap, v, depth)
    ensures WithinBound(heap, v, depth)
    decreases MAX_NESTING_DEPTH - depth
  {
    MembersRepresentable(heap, v, depth);
    forall m | m in Members(heap, v)
      ensures WithinBound(heap, m, depth + 1)
    {
      RepresentableWithin(heap, m, depth + 1);
    }
    OneLevel(heap, v, depth);
  }

  lemma {:induction false} PutMembers(pairs: seq<Pair>, key: Value, value: Value)
    ensures forall p :: p in Put(pairs, key, value) ==> p in pairs || p == Pair(key, value)
  {
    if pairs != [] {
      PutMembers(pairs[1..], key, value);
    }
  }

  lemma {:induction false} WrapRepresentable(heap: Heap, v: Value, t: Table, depth: nat)
    requires DeepWrap(heap, v, t, depth).result.Success?
    ensures Representable(heap, DeepWrap(heap, v, t, depth).result.value, depth)
    decreases Room(depth), 0
  {
    match At(heap, v) {
      case Arr(elements) => WrapEachRepresentable(heap, elements, t, depth + 1);
      case Hash(pairs) => WrapPairsRepresentable(heap, pairs, [], t, depth + 1);
      case _ =>
    }
  }

  lemma {:induction false} WrapEachRepresentable(heap: Heap, vs: seq<Value>, t: Table, depth: nat)
    requires WrapEach(heap, vs, t, depth).result.Success?
    ensures forall e :: e in WrapEach(heap, vs, t, depth).result.value ==> Representable(heap, e, depth)
    decreases Room(depth), |vs| + 1
  {
    if vs != [] {
      WrapRepresentable(heap, vs[0], t, depth);
      WrapEachRepresentable(heap, vs[1..], DeepWrap(heap, vs[0], t, depth).table, depth);
    }
  }

  lemma {:induction false} WrapPairsRepresentable(heap: Heap, pairs: seq<Pair>, wrapped: seq<Pair>, t: Table, depth: nat)
    requires WrapPairs(heap, pairs, wrapped, t, depth).result.Success?
    requires forall p :: p in wrapped ==> Representable(heap, p.key, depth) && Representable(heap, p.value, depth)
    ensures forall p :: p in WrapPairs(heap, pairs, wrapped, t, depth).result.value ==>
              Representable(heap, p.key, depth) && Representable(heap, p.value, depth)
    decreases Room(depth), |pairs| + 1
  {
    if pairs != [] {
      WrapRepresentable(heap, pairs[0].value, t, depth);
      var first := DeepWrap(heap, pairs[0].value, t, depth);
      UnfoldRepresentable(heap, pairs[0].key, depth);
      PutMembers(wrapped, Unfold(heap, pairs[0].key, depth), first.result.value);
      var next := Put(wrapped, Unfold(heap, pairs[0].key, depth), first.result.value);
      WrapPairsRepresentable(heap, pairs[1..], next, first.table, depth);
    }
  }

  lemma {:induction false} WrapWithin(heap: Heap, v: Value, t: Table, depth: nat)
    requires DeepWrap(heap, v, t, depth).result.Success?
    ensures WithinBound(heap, v, depth)
    decreases Room(depth), 0
  {
    OneLevel(heap, v, depth);
    match At(heap, v) {
      case Arr(elements) => WrapEachWithin(heap, elements, t, depth + 1);
      case Hash(pairs) => WrapPairsWithin(heap, pairs, [], t, depth + 1);
      case _ =>
    }
  }

  lemma {:induction false} WrapEachWithin(heap: Heap, vs: seq<Value>, t: Table, depth: nat)
    requires WrapEach(heap, vs, t, depth).result.Success?
    ensures forall e :: e in vs ==> WithinBound(heap, e, depth) && depth <= MAX_NESTING_DEPTH
    decreases Room(depth), |vs| + 1
  {
    if vs != [] {
      WrapWithin(heap, vs[0], t, depth);
      WrapEachWithin(heap, vs[1..], DeepWrap(heap, vs[0], t, depth).table, depth);
    }
  }

  lemma {:induction false} WrapPairsWithin(heap: Heap, pairs: seq<Pair>, wrapped: seq<Pair>, t: Table, depth: nat)
    requires WrapPairs(heap, pairs, wrapped, t, depth).result.Success?
    ensures forall e :: e in Keys(pairs) + Values(pairs) ==> WithinBound(heap, e, depth) && depth <= MAX_NESTING_DEPTH
    decreases Room(depth), |pairs| + 1
  {
    if pairs != [] {
      RepresentableWithin(heap, pairs[0].key, depth);
      WrapWithin(heap, pairs[0].value, t, depth);
      var first := DeepWrap(heap, pairs[0].value, t, depth);
      var next := Put(wrapped, Unfold(heap, pairs[0].key, depth), first.result.value);
      WrapPairsWithin(heap, pairs[1..], next, first.table, depth);
      assert Keys(pairs) == [pairs[0].key] + Keys(pairs[1..]);
      assert Values(pairs) == [pairs[0].value] + Values(pairs[1..]);
    }
  }

  /** On every heap: a value that reaches a cycle is never wrapped; one that is wrapped passed the
      bound itself, and what it became is representable and within the bound at the same depth. */
  lemma WrapFits(heap: Heap, v: Value, t: Table, depth: nat)
    requires DeepWrap(heap, v, t, depth).result.Success?
    ensures Representable(heap, DeepWrap(heap, v, t, depth).result.value, depth)
    ensures WithinBound(heap, DeepWrap(heap, v, t, depth).result.value, depth)
    ensures WithinBound(heap, v, depth)
    ensures forall way, at :: way != [] && way[0] == v ==> !ReachesCycle(heap, way, at)
  {
    WrapRepresentable(heap, v, t, depth);
    RepresentableWithin(heap, DeepWrap(heap, v, t, depth).result.value, depth);
    WrapWithin(heap, v, t, depth);
    forall way, at | way != [] && way[0] == v && ReachesCycle(heap, way, at)
      ensures false
    {
      CycleRefused(heap, way, at, depth);
    }
  }

  // Wrap, then restore.

  predicate DistinctKeys(pairs: seq<Pair>) {
    forall i, j :: 0 <= i < j < |pairs| ==> pairs[i].key != pairs[j].key
  }

  /** No Handle anywhere, and Hashes with distinct keys, as Ruby's have until a key is changed. */
  predicate Kept(v: Value) {
    match v
    case Arr(elements) => forall e :: e in elements ==> Kept(e)
    case Hash(pairs) => DistinctKeys(pairs) && forall p :: p in pairs ==> KeptPair(p)
    case Handle(_) => false
    case _ => true
  }

  predicate KeptPair(p: Pair) { Kept(p.key) && Kept(p.value) }

  /** Ids start at 1 and stay below the next one, and only what cannot cross by itself is bound. */
  predicate Sound(t: Table) {
    1 <= t.nextId && forall id :: id in t.entries ==>
      id < t.nextId && !PrimitiveType(t.entries[id]) && !IsContainer(t.entries[id])
  }

  predicate Grows(t: Table, t': Table) {
    forall id :: id in t.entries ==> id in t'.entries && t'.entries[id] == t.entries[id]
  }

  lemma {:induction false} WrapGrows(heap: Heap, v: Value, t: Table, depth: nat)
    requires Sound(t)
    ensures Sound(DeepWrap(heap, v, t, depth).table) && Grows(t, DeepWrap(heap, v, t, depth).table)
    decreases Room(depth), 0
  {
    if depth <= MAX_NESTING_DEPTH {
      match At(heap, v) {
        case Arr(elements) => WrapEachGrows(heap, elements, t, depth + 1);
        case Hash(pairs) => WrapPairsGrows(heap, pairs, [], t, depth + 1);
        case _ =>
      }
    }
  }

  lemma {:induction false} WrapEachGrows(heap: Heap, vs: seq<Value>, t: Table, depth: nat)
    requires Sound(t)
    ensures Sound(WrapEach(heap, vs, t, depth).table) && Grows(t, WrapEach(heap, vs, t, depth).table)
    decreases Room(depth), |vs| + 1
  {
    if vs != [] {
      WrapGrows(heap, vs[0], t, depth);
      WrapEachGrows(heap, vs[1..], DeepWrap(heap, vs[0], t, depth).table, depth);
    }
  }

  lemma {:induction false} WrapPairsGrows(heap: Heap, pairs: seq<Pair>, wrapped: seq<Pair>, t: Table, depth: nat)
    requires Sound(t)
    ensures Sound(WrapPairs(heap, pairs, wrapped, t, depth).table)
    ensures Grows(t, WrapPairs(heap, pairs, wrapped, t, depth).table)
    decreases Room(depth), |pairs| + 1
  {
    if pairs != [] {
      WrapGrows(heap, pairs[0].value, t, depth);
      var first := DeepWrap(heap, pairs[0].value, t, depth);
      if first.result.Success? {
        var next := Put(wrapped, Unfold(heap, pairs[0].key, depth), first.result.value);
        WrapPairsGrows(heap, pairs[1..], next, first.table, depth);
      }
    }
  }

  lemma {:induction false} PutFresh(pairs: seq<Pair>, key: Value, value: Value)
    requires forall p :: p in pairs ==> p.key != key
    ensures Put(pairs, key, value) == pairs + [Pair(key, value)]
  {
    if pairs != [] {
      PutFresh(pairs[1..], key, value);
    }
  }

  /** A key that crosses is restored as itself. */
  lemma {:induction false} RestoreSame(v: Value, t: Table)
    requires Kept(v)
    ensures DeepRestore(v, t) == Success(v)
  {
    match v {
      case Arr(elements) => RestoreEachSame(elements, t);
      case Hash(pairs) =>
        assert [] + pairs == pairs;
        RestorePairsSame(pairs, [], t);
      case _ =>
    }
  }

  lemma {:induction false} RestoreEachSame(vs: seq<Value>, t: Table)
    requires forall e :: e in vs ==> Kept(e)
    ensures RestoreEach(vs, t) == Success(vs)
  {
    if vs != [] {
      RestoreSame(vs[0], t);
      RestoreEachSame(vs[1..], t);
      assert vs == [vs[0]] + vs[1..];
    }
  }

  lemma {:induction false} RestorePairsSame(pairs: seq<Pair>, done: seq<Pair>, t: Table)
    requires DistinctKeys(done + pairs)
    requires forall p :: p in pairs ==> KeptPair(p)
    ensures RestorePairs(pairs, done, t) == Success(done + pairs)
    decreases pairs
  {
    if pairs == [] {
      assert done + pairs == done;
    } else {
      RestorePairSame(pairs[0], t);
      FreshKey(done, pairs);
      PutFresh(done, pairs[0].key, pairs[0].value);
      assert done + pairs == (done + [pairs[0]]) + pairs[1..];
      RestorePairsSame(pairs[1..], done + [pairs[0]], t);
    }
  }

  lemma {:induction false} RestorePairSame(p: Pair, t: Table)
    requires KeptPair(p)
    ensures RestorePair(p, t) == Success(p)
  {
    RestoreSame(p.key, t);
    RestoreSame(p.value, t);
  }

  lemma FreshKey(done: seq<Pair>, pairs: seq<Pair>)
    requires pairs != [] && DistinctKeys(done + pairs)
    ensures forall p :: p in done ==> p.key != pairs[0].key
  {
    assert (done + pairs)[|done|] == pairs[0];
    assert forall i :: 0 <= i < |done| ==> (done + pairs)[i] == done[i];
  }

  lemma {:induction false} WrapRestores(heap: Heap, v: Value, t: Table, depth: nat, after: Table)
    requires Kept(Unfold(heap, v, depth)) && Sound(t)
    requires DeepWrap(heap, v, t, depth).result.Success? && Grows(DeepWrap(heap, v, t, depth).table, after)
    ensures DeepRestore(DeepWrap(heap, v, t, depth).result.value, after) == Success(Unfold(heap, v, depth))
    decreases Room(depth), 0
  {
    match At(heap, v) {
      case Arr(elements) => WrapEachRestores(heap, elements, t, depth + 1, after);
      case Hash(pairs) =>
        var us := UnfoldPairs(heap, pairs, depth + 1);
        assert [] + us == us;
        var news := WrapPairsRestores(heap, pairs, us, [], [], t, depth + 1, after);
        assert [] + news == news;
      case _ =>
    }
  }

  lemma {:induction false} WrapEachRestores(heap: Heap, vs: seq<Value>, t: Table, depth: nat, after: Table)
    requires Sound(t) && forall e :: e in UnfoldEach(heap, vs, depth) ==> Kept(e)
    requires WrapEach(heap, vs, t, depth).result.Success? && Grows(WrapEach(heap, vs, t, depth).table, after)
    ensures RestoreEach(WrapEach(heap, vs, t, depth).result.value, after) == Success(UnfoldEach(heap, vs, depth))
    decreases Room(depth), |vs| + 1
  {
    if vs != [] {
      var us, first := UnfoldEach(heap, vs, depth), DeepWrap(heap, vs[0], t, depth);
      assert us[0] in us && us[1..] == UnfoldEach(heap, vs[1..], depth);
      WrapGrows(heap, vs[0], t, depth);
      WrapEachGrows(heap, vs[1..], first.table, depth);
      WrapRestores(heap, vs[0], t, depth, after);
      WrapEachRestores(heap, vs[1..], first.table, depth, after);
      var rest := WrapEach(heap, vs[1..], first.table, depth).result.value;
      assert ([first.result.value] + rest)[1..] == rest;
    }
  }

  lemma {:induction false} WrapPairRestores(heap: Heap, p: Pair, t: Table, depth: nat, after: Table)
    requires Sound(t) && Kept(Unfold(heap, p.key, depth)) && Kept(Unfold(heap, p.value, depth))
    requires DeepWrap(heap, p.value, t, depth).result.Success? && Grows(DeepWrap(heap, p.value, t, depth).table, after)
    ensures RestorePair(Pair(Unfold(heap, p.key, depth), DeepWrap(heap, p.value, t, depth).result.value), after) ==
            Success(Pair(Unfold(heap, p.key, depth), Unfold(heap, p.value, depth)))
    decreases Room(depth), 1
  {
    WrapRestores(heap, p.value, t, depth, after);
    RestoreSame(Unfold(heap, p.key, depth), after);
  }

  lemma Shift<T>(a: seq<T>, x: T, rest: seq<T>)
    ensures a + ([x] + rest) == (a + [x]) + rest
  {
  }

  lemma RestoreOnePair(q: Pair, p: Pair, more: seq<Pair>, done: seq<Pair>, t: Table)
    requires RestorePair(q, t) == Success(p) && forall d :: d in done ==> d.key != p.key
    ensures RestorePairs([q] + more, done, t) == RestorePairs(more, done + [p], t)
  {
    PutFresh(done, p.key, p.value);
    assert ([q] + more)[1..] == more;
  }

  /** The wrapped pairs follow those before them, and restoring them gives the pairs back in place. */
  lemma {:induction false} WrapPairsRestores(
      heap: Heap, pairs: seq<Pair>, us: seq<Pair>, wrapped: seq<Pair>, done: seq<Pair>, t: Table, depth: nat, after: Table)
    returns (news: seq<Pair>)
    requires us == UnfoldPairs(heap, pairs, depth) && Sound(t) && forall p :: p in us ==> KeptPair(p)
    requires DistinctKeys(wrapped + us) && DistinctKeys(done + us)
    requires WrapPairs(heap, pairs, wrapped, t, depth).result.Success?
    requires Grows(WrapPairs(heap, pairs, wrapped, t, depth).table, after)
    ensures WrapPairs(heap, pairs, wrapped, t, depth).result.value == wrapped + news
    ensures RestorePairs(news, done, after) == Success(done + us)
    decreases Room(depth), |pairs| + 1
  {
    news := [];
    if pairs == [] {
      assert wrapped + news == wrapped && done + us == done;
    } else {
      var p, rest := us[0], us[1..];
      assert KeptPair(p) && rest == UnfoldPairs(heap, pairs[1..], depth) && us == [p] + rest;
      var q, t1 := WrapOnePair(heap, pairs, wrapped, t, depth);
      assert RestorePair(q, after) == Success(p) by {
        WrapPairsGrows(heap, pairs[1..], wrapped + [q], t1, depth);
        WrapPairRestores(heap, pairs[0], t, depth, after);
      }
      Shift(done, p, rest);
      var more := WrapPairsRestores(heap, pairs[1..], rest, wrapped + [q], done + [p], t1, depth, after);
      news := [q] + more;
      Shift(wrapped, q, more);
      FreshKey(done, us);
      RestoreOnePair(q, p, more, done, after);
    }
  }

  /** The first step of wrapping pairs whose keys are all new. */
  lemma WrapOnePair(heap: Heap, pairs: seq<Pair>, wrapped: seq<Pair>, t: Table, depth: nat) returns (q: Pair, t1: Table)
    requires Sound(t) && pairs != [] && DistinctKeys(wrapped + UnfoldPairs(heap, pairs, depth))
    requires WrapPairs(heap, pairs, wrapped, t, depth).result.Success?
    ensures DeepWrap(heap, pairs[0].value, t, depth) == Walked(Success(q.value), t1)
    ensures q.key == Unfold(heap, pairs[0].key, depth)
    ensures WrapPairs(heap, pairs, wrapped, t, depth) == WrapPairs(heap, pairs[1..], wrapped + [q], t1, depth)
    ensures DistinctKeys(wrapped + [q] + UnfoldPairs(heap, pairs[1..], depth)) && Sound(t1) && Grows(t, t1)
  {
    var us, first := UnfoldPairs(heap, pairs, depth), DeepWrap(heap, pairs[0].value, t, depth);
    assert us[1..] == UnfoldPairs(heap, pairs[1..], depth);
    q, t1 := Pair(us[0].key, first.result.value), first.table;
    FreshKey(wrapped, us);
    PutFresh(wrapped, q.key, q.value);
    StillDistinct(wrapped, us, q);
    WrapGrows(heap, pairs[0].value, t, depth);
  }

  lemma StillDistinct(wrapped: seq<Pair>, pairs: seq<Pair>, q: Pair)
    requires pairs != [] && q.key == pairs[0].key && DistinctKeys(wrapped + pairs)
    ensures DistinctKeys(wrapped + [q] + pairs[1..])
  {
    var before, after := wrapped + pairs, wrapped + [q] + pairs[1..];
    assert |before| == |after|;
    assert forall i :: 0 <= i < |before| ==> before[i].key == after[i].key;
  }

  // A Handle already in the value is not given back, nor are two pairs under one key.

  lemma {:induction false} PutLength(pairs: seq<Pair>, key: Value, value: Value)
    ensures |pairs| <= |Put(pairs, key, value)| <= |pairs| + 1
    ensures |Put(pairs, key, value)| == |pairs| + 1 ==> Put(pairs, key, value) == pairs + [Pair(key, value)]
  {
    if pairs != [] {
      PutLength(pairs[1..], key, value);
    }
  }

  lemma {:induction false} PutDistinct(pairs: seq<Pair>, key: Value, value: Value)
    requires DistinctKeys(pairs)
    ensures DistinctKeys(Put(pairs, key, value))
  {
    if pairs != [] && pairs[0].key != key {
      var rest := Put(pairs[1..], key, value);
      PutDistinct(pairs[1..], key, value);
      PutMembers(pairs[1..], key, value);
      assert forall i :: 0 <= i < |rest| ==> rest[i] in rest;
      assert forall p :: p in pairs[1..] ==> p.key != pairs[0].key;
    }
  }

  lemma {:induction false} RestoredDistinct(pairs: seq<Pair>, done: seq<Pair>, t: Table)
    requires RestorePairs(pairs, done, t).Success? && DistinctKeys(done)
    ensures DistinctKeys(RestorePairs(pairs, done, t).value)
    decreases pairs
  {
    if pairs != [] {
      var first := RestorePair(pairs[0], t).value;
      PutDistinct(done, first.key, first.value);
      RestoredDistinct(pairs[1..], Put(done, first.key, first.value), t);
    }
  }

  /** As many pairs as were restored means no two keys collapsed, so each stands in its place. */
  lemma {:induction false} RestorePairsLength(pairs: seq<Pair>, done: seq<Pair>, t: Table)
    requires RestorePairs(pairs, done, t).Success?
    ensures var r := RestorePairs(pairs, done, t).value;
            |r| <= |done| + |pairs| && (|r| == |done| + |pairs| ==> r[..|done|] == done)
    decreases pairs
  {
    if pairs != [] {
      var first := RestorePair(pairs[0], t).value;
      PutLength(done, first.key, first.value);
      RestorePairsLength(pairs[1..], Put(done, first.key, first.value), t);
    }
  }

  lemma {:induction false} KeyLost(v: Value, t: Table)
    requires !Kept(v) && Sound(t)
    ensures DeepRestore(v, t) != Success(v)
  {
    match v {
      case Arr(elements) => KeyEachLost(elements, t);
      case Hash(pairs) =>
        if RestorePairs(pairs, [], t) == Success(pairs) {
          RestoredDistinct(pairs, [], t);
          assert [] + pairs == pairs;
          KeyPairsLost(pairs, [], t);
        }
      case _ =>
    }
  }

  lemma {:induction false} KeyEachLost(vs: seq<Value>, t: Table)
    requires Sound(t) && exists e :: e in vs && !Kept(e)
    ensures RestoreEach(vs, t) != Success(vs)
  {
    if !Kept(vs[0]) {
      KeyLost(vs[0], t);
    } else {
      KeyEachLost(vs[1..], t);
    }
  }

  lemma {:induction false} KeyPairLost(p: Pair, t: Table)
    requires Sound(t) && !KeptPair(p)
    ensures RestorePair(p, t) != Success(p)
  {
    if !Kept(p.key) {
      KeyLost(p.key, t);
    } else {
      KeyLost(p.value, t);
    }
  }

  lemma {:induction false} KeyPairsLost(pairs: seq<Pair>, done: seq<Pair>, t: Table)
    requires Sound(t) && exists p :: p in pairs && !KeptPair(p)
    ensures RestorePairs(pairs, done, t) != Success(done + pairs)
    decreases pairs
  {
    if RestorePairs(pairs, done, t) == Success(done + pairs) {
      var first := SameFirst(pairs, done, t, pairs);
      if !KeptPair(pairs[0]) {
        KeyPairLost(pairs[0], t);
      } else {
        KeyPairsLost(pairs[1..], done + [pairs[0]], t);
      }
    }
  }

  /** Pairs restored to `done + want` have their first restored to the first wanted. */
  lemma SameFirst(pairs: seq<Pair>, done: seq<Pair>, t: Table, want: seq<Pair>) returns (first: Pair)
    requires pairs != [] && |want| == |pairs|
    requires RestorePairs(pairs, done, t) == Success(done + want)
    ensures RestorePair(pairs[0], t) == Success(want[0]) && first == want[0]
    ensures RestorePairs(pairs[1..], done + [first], t) == Success(done + [first] + want[1..])
  {
    first := RestorePair(pairs[0], t).value;
    PutLength(done, first.key, first.value);
    RestorePairsLength(pairs[1..], Put(done, first.key, first.value), t);
    assert (done + want)[|done|] == want[0];
    assert (done + want)[..|done| + 1] == done + [first];
    assert done + want == done + [want[0]] + want[1..];
  }

  lemma {:induction false} WrapLost(heap: Heap, v: Value, t: Table, depth: nat, after: Table)
    requires !Kept(Unfold(heap, v, depth)) && Sound(t) && Sound(after)
    requires DeepWrap(heap, v, t, depth).result.Success?
    ensures DeepRestore(DeepWrap(heap, v, t, depth).result.value, after) != Success(Unfold(heap, v, depth))
    decreases Room(depth), 0
  {
    match At(heap, v) {
      case Arr(elements) => WrapEachLost(heap, elements, t, depth + 1, after);
      case Hash(pairs) =>
        var us := UnfoldPairs(heap, pairs, depth + 1);
        if DistinctKeys(us) {
          WrapHashLost(heap, pairs, us, t, depth + 1, after);
        } else {
          RepeatedKeyLost(WrapPairs(heap, pairs, [], t, depth + 1).result.value, us, after);
        }
      case _ =>
    }
  }

  lemma {:induction false} WrapEachLost(heap: Heap, vs: seq<Value>, t: Table, depth: nat, after: Table)
    requires Sound(t) && Sound(after) && exists e :: e in UnfoldEach(heap, vs, depth) && !Kept(e)
    requires WrapEach(heap, vs, t, depth).result.Success?
    ensures RestoreEach(WrapEach(heap, vs, t, depth).result.value, after) != Success(UnfoldEach(heap, vs, depth))
    decreases Room(depth), |vs| + 1
  {
    var us, first := UnfoldEach(heap, vs, depth), DeepWrap(heap, vs[0], t, depth);
    var rest := WrapEach(heap, vs[1..], first.table, depth).result.value;
    assert ([first.result.value] + rest)[1..] == rest && us[1..] == UnfoldEach(heap, vs[1..], depth);
    WrapGrows(heap, vs[0], t, depth);
    if !Kept(us[0]) {
      WrapLost(heap, vs[0], t, depth, after);
    } else {
      WrapEachLost(heap, vs[1..], first.table, depth, after);
    }
  }

  lemma RepeatedKeyLost(pairs: seq<Pair>, want: seq<Pair>, t: Table)
    requires !DistinctKeys(want)
    ensures RestorePairs(pairs, [], t) != Success(want)
  {
    if RestorePairs(pairs, [], t).Success? {
      RestoredDistinct(pairs, [], t);
    }
  }

  lemma {:induction false} WrapHashLost(
      heap: Heap, pairs: seq<Pair>, us: seq<Pair>, t: Table, depth: nat, after: Table)
    requires us == UnfoldPairs(heap, pairs, depth) && DistinctKeys(us) && Sound(t) && Sound(after)
    requires exists p :: p in us && !KeptPair(p)
    requires WrapPairs(heap, pairs, [], t, depth).result.Success?
    ensures RestorePairs(WrapPairs(heap, pairs, [], t, depth).result.value, [], after) != Success(us)
    decreases Room(depth), |pairs| + 2
  {
    assert [] + us == us;
    var news := WrapPairsLost(heap, pairs, [], [], t, depth, after);
    assert [] + news == news;
  }

  lemma {:induction false} WrapPairLost(heap: Heap, p: Pair, t: Table, depth: nat, after: Table)
    requires Sound(t) && Sound(after) && !(Kept(Unfold(heap, p.key, depth)) && Kept(Unfold(heap, p.value, depth)))
    requires DeepWrap(heap, p.value, t, depth).result.Success?
    ensures RestorePair(Pair(Unfold(heap, p.key, depth), DeepWrap(heap, p.value, t, depth).result.value), after) !=
            Success(Pair(Unfold(heap, p.key, depth), Unfold(heap, p.value, depth)))
    decreases Room(depth), 1
  {
    if !Kept(Unfold(heap, p.key, depth)) {
      KeyLost(Unfold(heap, p.key, depth), after);
    } else {
      WrapLost(heap, p.value, t, depth, after);
    }
  }

  lemma {:induction false} WrapPairsLost(
      heap: Heap, pairs: seq<Pair>, wrapped: seq<Pair>, done: seq<Pair>, t: Table, depth: nat, after: Table)
    returns (news: seq<Pair>)
    requires Sound(t) && Sound(after) && DistinctKeys(wrapped + UnfoldPairs(heap, pairs, depth))
    requires WrapPairs(heap, pairs, wrapped, t, depth).result.Success?
    ensures WrapPairs(heap, pairs, wrapped, t, depth).result.value == wrapped + news && |news| == |pairs|
    ensures var us := UnfoldPairs(heap, pairs, depth);
            (exists p :: p in us && !KeptPair(p)) ==> RestorePairs(news, done, after) != Success(done + us)
    decreases Room(depth), |pairs| + 1
  {
    news := [];
    var us := UnfoldPairs(heap, pairs, depth);
    if pairs == [] {
      assert wrapped + news == wrapped;
    } else {
      var p, rest := us[0], us[1..];
      assert rest == UnfoldPairs(heap, pairs[1..], depth);
      var q, t1 := WrapOnePair(heap, pairs, wrapped, t, depth);
      var more := WrapPairsLost(heap, pairs[1..], wrapped + [q], done + [p], t1, depth, after);
      news := [q] + more;
      assert wrapped + news == (wrapped + [q]) + more;
      if (exists p :: p in us && !KeptPair(p)) && RestorePairs(news, done, after) == Success(done + us) {
        var first := SameFirst(news, done, after, us);
        assert news[1..] == more;
        if !KeptPair(p) {
          WrapPairLost(heap, pairs[0], t, depth, after);
        }
      }
    }
  }

  /** On every heap, whatever the table held and whatever the depth: a value that was wrapped comes back
      as itself, wherever its containers were shared, exactly when it held no Handle of its own and no
      Hash with two equal keys. */
  lemma RoundTripExactly(heap: Heap, v: Value, t: Table, depth: nat)
    requires Sound(t) && DeepWrap(heap, v, t, depth).result.Success?
    ensures var w, u := DeepWrap(heap, v, t, depth), Unfold(heap, v, depth);
            DeepRestore(w.result.value, w.table) == Success(u) <==> Kept(u)
  {
    var w := DeepWrap(heap, v, t, depth);
    WrapGrows(heap, v, t, depth);
    if Kept(Unfold(heap, v, depth)) {
      WrapRestores(heap, v, t, depth, w.table);
    } else {
      WrapLost(heap, v, t, depth, w.table);
    }
  }

  // What a wrap binds, and when it succeeds.

  /** The objects that cannot cross by themselves, in the order the walk meets them, a shared one each
      time; a Hash key is never one, since a key that is not representable raises. */
  ghost function Objects(heap: Heap, v: Value, depth: nat): seq<Value>
    decreases Room(depth), 0
  {
    if depth > MAX_NESTING_DEPTH then []
    else
      match At(heap, v)
      case Arr(elements) => ObjectsOf(heap, elements, depth + 1)
      case Hash(pairs) => ObjectsOf(heap, Values(pairs), depth + 1)
      case x => if PrimitiveType(x) then [] else [x]
  }

  ghost function ObjectsOf(heap: Heap, vs: seq<Value>, depth: nat): seq<Value>
    decreases Room(depth), |vs| + 1
  {
    if vs == [] then [] else Objects(heap, vs[0], depth) + ObjectsOf(heap, vs[1..], depth)
  }

  /** Everything but the id range lets a value cross: its depth, its keys, and what its objects are. */
  ghost predicate Crosses(heap: Heap, v: Value, depth: nat)
    decreases Room(depth)
  {
    depth <= MAX_NESTING_DEPTH &&
    match At(heap, v)
    case Arr(elements) => forall e :: e in elements ==> Crosses(heap, e, depth + 1)
    case Hash(pairs) =>
      forall p :: p in pairs ==> Representable(heap, p.key, depth + 1) && Crosses(heap, p.value, depth + 1)
    case x => !(x.Object? && x.kind.Unwrappable?)
  }

  ghost predicate Fits(t: Table, objects: seq<Value>) {
    objects == [] || t.nextId + |objects| - 1 <= MAX_ID
  }

  /** `t'` is `t` with `objects` bound to consecutive ids from its next one. */
  ghost predicate Binds(t: Table, objects: seq<Value>, t': Table) {
    && t'.nextId == t.nextId + |objects|
    && Grows(t, t')
    && forall k :: 0 <= k < |objects| ==> Bound(t', t.nextId + k, objects[k])
  }

  predicate Bound(t: Table, id: int, x: Value) { id in t.entries && t.entries[id] == x }

  lemma BindsThen(t: Table, a: seq<Value>, t1: Table, b: seq<Value>, t2: Table)
    requires Binds(t, a, t1) && Binds(t1, b, t2)
    ensures Binds(t, a + b, t2)
  {
  }

  /** On every heap, a wrap succeeds exactly when the value may cross and its objects fit the ids left,
      and then binds exactly those objects, in order. */
  lemma {:induction false} WrapExactly(heap: Heap, v: Value, t: Table, depth: nat)
    requires Sound(t)
    ensures var w, objects := DeepWrap(heap, v, t, depth), Objects(heap, v, depth);
            && (w.result.Success? <==> Crosses(heap, v, depth) && Fits(t, objects))
            && (w.result.Success? ==> Binds(t, objects, w.table))
    decreases Room(depth), 0
  {
    if depth <= MAX_NESTING_DEPTH {
      match At(heap, v) {
        case Arr(elements) =>
          WrapEachExactly(heap, elements, t, depth + 1);
          assert Objects(heap, v, depth) == ObjectsOf(heap, elements, depth + 1);
        case Hash(pairs) =>
          WrapPairsExactly(heap, pairs, [], t, depth + 1);
          assert Objects(heap, v, depth) == ObjectsOf(heap, Values(pairs), depth + 1);
        case x => WrapLeafExactly(heap, v, x, t, depth);
      }
    }
  }

  lemma WrapLeafExactly(heap: Heap, v: Value, x: Value, t: Table, depth: nat)
    requires Sound(t) && depth <= MAX_NESTING_DEPTH && x == At(heap, v) && !IsContainer(x)
    ensures var w, objects := DeepWrap(heap, v, t, depth), Objects(heap, v, depth);
            && (w.result.Success? <==> Crosses(heap, v, depth) && Fits(t, objects))
            && (w.result.Success? ==> Binds(t, objects, w.table))
  {
  }

  lemma {:induction false} WrapEachExactly(heap: Heap, vs: seq<Value>, t: Table, depth: nat)
    requires Sound(t)
    ensures var w, objects := WrapEach(heap, vs, t, depth), ObjectsOf(heap, vs, depth);
            && (w.result.Success? <==> (forall e :: e in vs ==> Crosses(heap, e, depth)) && Fits(t, objects))
            && (w.result.Success? ==> Binds(t, objects, w.table))
    decreases Room(depth), |vs| + 1
  {
    if vs != [] {
      var first := DeepWrap(heap, vs[0], t, depth);
      WrapExactly(heap, vs[0], t, depth);
      WrapGrows(heap, vs[0], t, depth);
      WrapEachExactly(heap, vs[1..], first.table, depth);
      assert vs == [vs[0]] + vs[1..];
      assert (forall e :: e in vs ==> Crosses(heap, e, depth)) <==>
             Crosses(heap, vs[0], depth) && forall e :: e in vs[1..] ==> Crosses(heap, e, depth);
      var all := WrapEach(heap, vs, t, depth);
      if all.result.Success? {
        BindsThen(t, Objects(heap, vs[0], depth), first.table, ObjectsOf(heap, vs[1..], depth), all.table);
      }
    }
  }

  lemma {:induction false} WrapPairsExactly(heap: Heap, pairs: seq<Pair>, wrapped: seq<Pair>, t: Table, depth: nat)
    requires Sound(t)
    ensures var w, objects := WrapPairs(heap, pairs, wrapped, t, depth), ObjectsOf(heap, Values(pairs), depth);
            && (w.result.Success? <==>
                  && (forall p :: p in pairs ==> Representable(heap, p.key, depth) && Crosses(heap, p.value, depth))
                  && Fits(t, objects))
            && (w.result.Success? ==> Binds(t, objects, w.table))
    decreases Room(depth), |pairs| + 1
  {
    if pairs != [] && Representable(heap, pairs[0].key, depth) {
      var p := pairs[0];
      var first := DeepWrap(heap, p.value, t, depth);
      assert Values(pairs)[1..] == Values(pairs[1..]);
      WrapExactly(heap, p.value, t, depth);
      WrapGrows(heap, p.value, t, depth);
      if first.result.Success? {
        var next := Put(wrapped, Unfold(heap, p.key, depth), first.result.value);
        var rest := WrapPairs(heap, pairs[1..], next, first.table, depth);
        WrapPairsExactly(heap, pairs[1..], next, first.table, depth);
        if rest.result.Success? {
          BindsThen(t, Objects(heap, p.value, depth), first.table, ObjectsOf(heap, Values(pairs[1..]), depth), rest.table);
        }
      }
    }
  }

  // Which values cross as themselves, said of the members reached from them.

  ghost predicate Follows(heap: Heap, path: seq<Value>, i: nat)
    requires i + 1 < |path|
  {
    path[i + 1] in Members(heap, path[i])
  }

  /** From a value, each time to a member of the one before. */
  ghost predicate Chain(heap: Heap, path: seq<Value>) {
    path != [] && forall i: nat :: i + 1 < |path| ==> Follows(heap, path, i)
  }

  /** What the wire has a type for: everything but objects and Integers past 64 bits. */
  predicate WireType(x: Value) {
    match x
    case Int(i) => -9_223_372_036_854_775_808 <= i <= 18_446_744_073_709_551_615
    case Object(_, _) => false
    case Ref(_) => false
    case _ => true
  }

  ghost predicate EndsWired(heap: Heap, path: seq<Value>, depth: nat)
    requires path != []
  {
    depth + |path| - 1 <= 128 && WireType(At(heap, path[|path| - 1]))
  }

  /** All that is reached from `v` is of a wire type and within the bound. */
  ghost predicate Wire(heap: Heap, v: Value, depth: nat) {
    forall path :: Chain(heap, path) && path[0] == v ==> EndsWired(heap, path, depth)
  }

  lemma ChainTail(heap: Heap, path: seq<Value>)
    requires Chain(heap, path) && |path| > 1
    ensures Chain(heap, path[1..]) && path[1] in Members(heap, path[0])
  {
    assert Follows(heap, path, 0);
    forall i: nat | i + 1 < |path[1..]| ensures Follows(heap, path[1..], i) {
      assert Follows(heap, path, i + 1);
    }
  }

  lemma ChainFrom(heap: Heap, v: Value, rest: seq<Value>)
    requires Chain(heap, rest) && rest[0] in Members(heap, v)
    ensures Chain(heap, [v] + rest)
  {
    var path := [v] + rest;
    forall i: nat | i + 1 < |path| ensures Follows(heap, path, i) {
      if i > 0 {
        assert Follows(heap, rest, i - 1);
      }
    }
  }

  lemma {:induction false} RepresentableEnds(heap: Heap, path: seq<Value>, depth: nat)
    requires Chain(heap, path) && Representable(heap, path[0], depth)
    ensures EndsWired(heap, path, depth)
    decreases |path|
  {
    if |path| > 1 {
      ChainTail(heap, path);
      MembersRepresentable(heap, path[0], depth);
      RepresentableEnds(heap, path[1..], depth + 1);
    }
  }

  lemma {:induction false} UnrepresentableChain(heap: Heap, v: Value, depth: nat) returns (path: seq<Value>)
    requires !Representable(heap, v, depth)
    ensures Chain(heap, path) && path[0] == v && !EndsWired(heap, path, depth)
    decreases Room(depth)
  {
    path := [v];
    if EndsWired(heap, path, depth) {
      var m := UnrepresentableMember(heap, v, depth);
      var rest := UnrepresentableChain(heap, m, depth + 1);
      ChainFrom(heap, v, rest);
      path := [v] + rest;
    }
  }

  lemma UnrepresentableMember(heap: Heap, v: Value, depth: nat) returns (m: Value)
    requires !Representable(heap, v, depth) && depth <= MAX_NESTING_DEPTH && WireType(At(heap, v))
    ensures m in Members(heap, v) && !Representable(heap, m, depth + 1)
  {
    match At(heap, v) {
      case Arr(elements) => m :| m in elements && !Representable(heap, m, depth + 1);
      case Hash(pairs) =>
        var k :| 0 <= k < |pairs| &&
          !(Representable(heap, pairs[k].key, depth + 1) && Representable(heap, pairs[k].value, depth + 1));
        assert Keys(pairs)[k] == pairs[k].key && Values(pairs)[k] == pairs[k].value;
        m := if Representable(heap, pairs[k].key, depth + 1) then pairs[k].value else pairs[k].key;
      case _ => m := v;
    }
  }

  /** On every heap, a value is representable exactly when everything reached from it is of a wire type
      and within the bound. */
  lemma RepresentableExactly(heap: Heap, v: Value, depth: nat)
    ensures Representable(heap, v, depth) <==> Wire(heap, v, depth)
  {
    if Representable(heap, v, depth) {
      forall path | Chain(heap, path) && path[0] == v ensures EndsWired(heap, path, depth) {
        RepresentableEnds(heap, path, depth);
      }
    } else {
      var path := UnrepresentableChain(heap, v, depth);
    }
  }

  /** Every Hash has distinct keys. */
  predicate Keyed(v: Value) {
    match v
    case Arr(elements) => forall e :: e in elements ==> Keyed(e)
    case Hash(pairs) => DistinctKeys(pairs) && forall p :: p in pairs ==> KeyedPair(p)
    case _ => true
  }

  predicate KeyedPair(p: Pair) { Keyed(p.key) && Keyed(p.value) }

  lemma {:induction false} WrapPlain(heap: Heap, v: Value, t: Table, depth: nat)
    requires Representable(heap, v, depth) && Keyed(Unfold(heap, v, depth))
    ensures DeepWrap(heap, v, t, depth) == Walked(Success(Unfold(heap, v, depth)), t)
    decreases Room(depth), 0
  {
    match At(heap, v) {
      case Arr(elements) => WrapEachPlain(heap, elements, t, depth + 1);
      case Hash(pairs) =>
        var us := UnfoldPairs(heap, pairs, depth + 1);
        assert [] + us == us;
        WrapPairsPlain(heap, pairs, us, [], t, depth + 1);
      case _ =>
    }
  }

  lemma {:induction false} WrapEachPlain(heap: Heap, vs: seq<Value>, t: Table, depth: nat)
    requires forall e :: e in vs ==> Representable(heap, e, depth)
    requires forall u :: u in UnfoldEach(heap, vs, depth) ==> Keyed(u)
    ensures WrapEach(heap, vs, t, depth) == Walked(Success(UnfoldEach(heap, vs, depth)), t)
    decreases Room(depth), |vs| + 1
  {
    if vs != [] {
      var us := UnfoldEach(heap, vs, depth);
      assert us[0] in us && us[1..] == UnfoldEach(heap, vs[1..], depth);
      WrapPlain(heap, vs[0], t, depth);
      WrapEachPlain(heap, vs[1..], t, depth);
    }
  }

  lemma {:induction false} WrapPairsPlain(
      heap: Heap, pairs: seq<Pair>, us: seq<Pair>, wrapped: seq<Pair>, t: Table, depth: nat)
    requires us == UnfoldPairs(heap, pairs, depth) && DistinctKeys(wrapped + us)
    requires forall p :: p in pairs ==> Representable(heap, p.key, depth) && Representable(heap, p.value, depth)
    requires forall u :: u in us ==> KeyedPair(u)
    ensures WrapPairs(heap, pairs, wrapped, t, depth) == Walked(Success(wrapped + us), t)
    decreases Room(depth), |pairs| + 1
  {
    if pairs == [] {
      assert wrapped + us == wrapped;
    } else {
      var p, u, rest := pairs[0], us[0], us[1..];
      assert KeyedPair(u) && rest == UnfoldPairs(heap, pairs[1..], depth) && us == [u] + rest;
      WrapPlain(heap, p.value, t, depth);
      FreshKey(wrapped, us);
      PutFresh(wrapped, u.key, u.value);
      Shift(wrapped, u, rest);
      WrapPairsPlain(heap, pairs[1..], rest, wrapped + [u], t, depth);
    }
  }

  /** A value of wire types alone, within the bound and with distinct keys, crosses as itself and leaves
      the table untouched. */
  lemma WireCrossesAsItself(heap: Heap, v: Value, t: Table, depth: nat)
    requires Wire(heap, v, depth) && Keyed(Unfold(heap, v, depth))
    ensures DeepWrap(heap, v, t, depth) == Walked(Success(Unfold(heap, v, depth)), t)
  {
    RepresentableExactly(heap, v, depth);
    WrapPlain(heap, v, t, depth);
  }

  /** An object that may cross, or an Integer past 64 bits, takes the next id. */
  lemma OthersTakeAnId(heap: Heap, v: Value, t: Table, depth: nat)
    requires depth <= 128 && t.nextId <= 0x7fff_ffff
    requires var x := At(heap, v);
             || (x.Object? && !x.kind.Unwrappable?)
             || (x.Int? && !(-9_223_372_036_854_775_808 <= x.i <= 18_446_744_073_709_551_615))
    ensures DeepWrap(heap, v, t, depth) ==
            Walked(Success(Handle(t.nextId)), Table(t.entries[t.nextId := At(heap, v)], t.nextId + 1))
  {
  }

  // What a payload the guest built is restored to.

  lemma {:induction false} RestoreEachSucceeds(vs: seq<Value>, t: Table)
    ensures RestoreEach(vs, t).Success? <==> forall e :: e in vs ==> DeepRestore(e, t).Success?
  {
    if vs != [] {
      RestoreEachSucceeds(vs[1..], t);
      assert vs == [vs[0]] + vs[1..];
      assert (forall e :: e in vs ==> DeepRestore(e, t).Success?) <==>
             DeepRestore(vs[0], t).Success? && forall e :: e in vs[1..] ==> DeepRestore(e, t).Success?;
    }
  }

  lemma {:induction false} RestorePairsSucceed(pairs: seq<Pair>, done: seq<Pair>, t: Table)
    ensures RestorePairs(pairs, done, t).Success? <==>
            forall p :: p in pairs ==> DeepRestore(p.key, t).Success? && DeepRestore(p.value, t).Success?
    decreases pairs
  {
    if pairs != [] {
      var first := RestorePair(pairs[0], t);
      if first.Success? {
        RestorePairsSucceed(pairs[1..], Put(done, first.value.key, first.value.value), t);
      }
      assert pairs == [pairs[0]] + pairs[1..];
    }
  }

  lemma PairMember(pairs: seq<Pair>, m: Value)
    ensures m in Keys(pairs) + Values(pairs) <==> exists p :: p in pairs && (p.key == m || p.value == m)
  {
    if k :| 0 <= k < |pairs| && (pairs[k].key == m || pairs[k].value == m) {
      assert Keys(pairs)[k] == pairs[k].key && Values(pairs)[k] == pairs[k].value;
    }
    if m in Keys(pairs) + Values(pairs) {
      var k :| 0 <= k < |pairs| && (Keys(pairs)[k] == m || Values(pairs)[k] == m);
      assert pairs[k] in pairs;
    }
  }

  /** One level: a value is restored exactly when each of its members is. */
  lemma RestoreMembers(v: Value, t: Table)
    requires IsContainer(v)
    ensures DeepRestore(v, t).Success? <==> forall m :: m in Members(map[], v) ==> DeepRestore(m, t).Success?
  {
    match v {
      case Arr(elements) => RestoreEachSucceeds(elements, t);
      case Hash(pairs) =>
        RestorePairsSucceed(pairs, [], t);
        forall m ensures m in Members(map[], v) <==> exists p :: p in pairs && (p.key == m || p.value == m) {
          PairMember(pairs, m);
        }
        forall p | p in pairs ensures p.key in Members(map[], v) && p.value in Members(map[], v) {
          PairMember(pairs, p.key);
          PairMember(pairs, p.value);
        }
    }
  }

  ghost predicate EndsKnown(path: seq<Value>, t: Table)
    requires path != []
  {
    var x := path[|path| - 1];
    x.Handle? ==> x.id in t.entries
  }

  lemma {:induction false} RestoredEnds(path: seq<Value>, t: Table)
    requires Chain(map[], path) && DeepRestore(path[0], t).Success?
    ensures EndsKnown(path, t)
    decreases |path|
  {
    if |path| > 1 {
      ChainTail(map[], path);
      assert IsContainer(path[0]);
      RestoreMembers(path[0], t);
      RestoredEnds(path[1..], t);
    }
  }

  lemma {:induction false} UnrestoredChain(v: Value, t: Table) returns (path: seq<Value>)
    requires DeepRestore(v, t).Failure?
    ensures Chain(map[], path) && path[0] == v && !EndsKnown(path, t)
    decreases v
  {
    path := [v];
    if IsContainer(v) {
      RestoreMembers(v, t);
      var m :| m in Members(map[], v) && DeepRestore(m, t).Failure?;
      MemberBelow(v, m);
      var rest := UnrestoredChain(m, t);
      ChainFrom(map[], v, rest);
      path := [v] + rest;
    }
  }

  lemma MemberBelow(v: Value, m: Value)
    requires IsContainer(v) && m in Members(map[], v)
    ensures m < v
  {
    match v {
      case Arr(elements) =>
      case Hash(pairs) =>
        PairMember(pairs, m);
        var p :| p in pairs && (p.key == m || p.value == m);
        assert m < p && p < v;
    }
  }

  /** A payload is refused exactly when it holds a Handle, as a key or anywhere, that names nothing. */
  lemma RestoreFailsExactly(v: Value, t: Table)
    ensures DeepRestore(v, t).Success? <==>
            forall path :: Chain(map[], path) && path[0] == v ==> EndsKnown(path, t)
  {
    if DeepRestore(v, t).Success? {
      forall path | Chain(map[], path) && path[0] == v ensures EndsKnown(path, t) {
        RestoredEnds(path, t);
      }
    } else {
      var path := UnrestoredChain(v, t);
    }
  }

  /** `q` is what the `i`th pair is restored to, and no later pair is restored to its key. */
  ghost predicate LastPair(pairs: seq<Pair>, t: Table, i: nat, q: Pair) {
    && i < |pairs| && DeepRestore(pairs[i].key, t) == Success(q.key) && DeepRestore(pairs[i].value, t) == Success(q.value)
    && forall j :: i < j < |pairs| ==> DeepRestore(pairs[j].key, t) != Success(q.key)
  }

  lemma {:induction false} PutExactly(pairs: seq<Pair>, key: Value, value: Value, q: Pair)
    requires DistinctKeys(pairs)
    ensures q in Put(pairs, key, value) <==> q == Pair(key, value) || (q in pairs && q.key != key)
  {
    if pairs != [] {
      PutExactly(pairs[1..], key, value, q);
      assert pairs == [pairs[0]] + pairs[1..];
      assert forall p :: p in pairs[1..] ==> p.key != pairs[0].key;
    }
  }

  lemma LastPairShifts(pairs: seq<Pair>, t: Table, q: Pair)
    requires pairs != []
    ensures (exists i :: LastPair(pairs, t, i, q)) <==>
            (exists i :: LastPair(pairs[1..], t, i, q)) || LastPair(pairs, t, 0, q)
  {
    var rest := pairs[1..];
    assert forall j :: 0 <= j < |rest| ==> rest[j] == pairs[j + 1];
    forall i: nat ensures LastPair(pairs, t, i + 1, q) <==> LastPair(rest, t, i, q) {
      assert forall j :: i + 1 < j < |pairs| ==> pairs[j] == rest[j - 1];
    }
    if i: nat :| LastPair(pairs, t, i, q) && i > 0 {
      assert LastPair(rest, t, i - 1, q);
    }
  }

  lemma {:induction false} PairsRestoredExactly(pairs: seq<Pair>, done: seq<Pair>, t: Table, q: Pair)
    requires RestorePairs(pairs, done, t).Success? && DistinctKeys(done)
    ensures q in RestorePairs(pairs, done, t).value <==>
            || (exists i :: LastPair(pairs, t, i, q))
            || (q in done && forall j :: 0 <= j < |pairs| ==> DeepRestore(pairs[j].key, t) != Success(q.key))
    decreases pairs
  {
    if pairs != [] {
      var first, rest := RestorePair(pairs[0], t).value, pairs[1..];
      var next := Put(done, first.key, first.value);
      PutDistinct(done, first.key, first.value);
      PutExactly(done, first.key, first.value, q);
      PairsRestoredExactly(rest, next, t, q);
      LastPairShifts(pairs, t, q);
      assert forall j :: 0 <= j < |rest| ==> rest[j] == pairs[j + 1];
      assert forall j :: 0 < j < |pairs| ==> pairs[j] == rest[j - 1];
    }
  }

  /** A Hash the guest built comes back with its keys restored, Handles among them, each key once, and of
      pairs whose keys are restored to one the later's value. */
  lemma HashRestoredExactly(pairs: seq<Pair>, t: Table, q: Pair)
    requires DeepRestore(Hash(pairs), t).Success?
    ensures var r := DeepRestore(Hash(pairs), t).value;
            r.Hash? && DistinctKeys(r.pairs) && (q in r.pairs <==> exists i :: LastPair(pairs, t, i, q))
  {
    RestoredDistinct(pairs, [], t);
    PairsRestoredExactly(pairs, [], t, q);
  }

  /** The Handle table in place, and the walks that fill and read it. */
  class Handles {
    var entries: map<int, Value>
    var nextId: int

    ghost function View(): Table
      reads this
    {
      Table(entries, nextId)
    }

    constructor (nextId: int)
      requires 1 <= nextId
      ensures View() == Table(map[], nextId) && Sound(View())
    {
      entries, this.nextId := map[], nextId;
    }

    method AllocHandle(x: Value) returns (r: Result<Value, Error>)
      modifies this
      ensures Walked(r, View()) == Alloc(old(View()), x)
      ensures if x.Object? && x.kind.Unwrappable? then r == Failure(CannotCross) && View() == old(View())
              else if old(nextId) > 0x7fff_ffff then r == Failure(Exhausted) && View() == old(View())
              else r == Success(Handle(old(nextId))) && entries == old(entries)[old(nextId) := x] && nextId == old(nextId) + 1
    {
      if x.Object? && x.kind.Unwrappable? {
        return Failure(CannotCross);
      }
      if nextId > MAX_ID {
        return Failure(Exhausted);
      }
      var id := nextId;
      entries := entries[id := x];
      nextId := id + 1;
      return Success(Handle(id));
    }

    method Fetch(id: int) returns (r: Result<Value, Error>)
      ensures r == DeepRestore(Handle(id), View())
      ensures r == if id in entries then Success(entries[id]) else Failure(UnknownHandle)
    {
      if id !in entries {
        return Failure(UnknownHandle);
      }
      return Success(entries[id]);
    }

    method Wrap(heap: Heap, v: Value, depth: nat) returns (r: Result<Value, Error>)
      modifies this
      ensures Walked(r, View()) == DeepWrap(heap, v, old(View()), depth)
      decreases Room(depth), 0
    {
      if depth > MAX_NESTING_DEPTH {
        return Failure(TooDeep);
      }
      var x := At(heap, v);
      if x.Arr? {
        var each := WrapElements(heap, x.elements, depth + 1);
        return if each.Success? then Success(Arr(each.value)) else Failure(each.error);
      } else if x.Hash? {
        var each := WrapHash(heap, x.pairs, depth + 1);
        return if each.Success? then Success(Hash(each.value)) else Failure(each.error);
      } else if PrimitiveType(x) {
        return Success(x);
      } else {
        r := AllocHandle(x);
      }
    }

    method WrapElements(heap: Heap, vs: seq<Value>, depth: nat) returns (r: Result<seq<Value>, Error>)
      modifies this
      ensures Walked(r, View()) == WrapEach(heap, vs, old(View()), depth)
      decreases Room(depth), |vs| + 1
    {
      if vs == [] {
        return Success([]);
      }
      var first := Wrap(heap, vs[0], depth);
      if first.Failure? {
        return Failure(first.error);
      }
      var rest := WrapElements(heap, vs[1..], depth);
      return if rest.Success? then Success([first.value] + rest.value) else rest;
    }

    method WrapHash(heap: Heap, pairs: seq<Pair>, depth: nat) returns (r: Result<seq<Pair>, Error>)
      modifies this
      ensures Walked(r, View()) == WrapPairs(heap, pairs, [], old(View()), depth)
      decreases Room(depth), |pairs| + 1
    {
      var wrapped, i := [], 0;
      while i < |pairs|
        invariant 0 <= i <= |pairs|
        invariant WrapPairs(heap, pairs[i..], wrapped, View(), depth) == WrapPairs(heap, pairs, [], old(View()), depth)
      {
        var key, value := pairs[i].key, pairs[i].value;
        assert pairs[i..][0] == pairs[i] && pairs[i..][1..] == pairs[i + 1..];
        if !Representable(heap, key, depth) {
          return Failure(BadKey);
        }
        var w := Wrap(heap, value, depth);
        if w.Failure? {
          return Failure(w.error);
        }
        wrapped := Put(wrapped, Unfold(heap, key, depth), w.value);
        i := i + 1;
      }
      return Success(wrapped);
    }
  }
}
