/** Preloaded snippets and their one compile: `crates/kobako/src/snippet.rs` and its twin
    `lib/kobako/catalog/snippets.rb`. */
module Snippets {
  import opened Wrappers
  import opened Counting
  import Catalog

  type Bytes = seq<bv8>

  datatype Snippet = Source(name: string, body: string) | Bytecode(code: Bytes)

  type Entries = seq<Snippet>

  predicate Named(e: Snippet, name: string) { e.Source? && e.name == name }

  ghost predicate DistinctNames(entries: Entries) {
    forall i, j :: 0 <= i < j < |entries| && entries[i].Source? && entries[j].Source? ==>
      entries[i].name != entries[j].name
  }

  function RegisterSource(entries: Entries, name: string, body: string): Result<Entries, string> {
    if !Catalog.IsConstantName(name) then Failure("snippet name must be a Ruby constant name")
    else if exists i :: 0 <= i < |entries| && Named(entries[i], name) then Failure("already preloaded")
    else Success(entries + [Source(name, body)])
  }

  // What one compile makes of a table, said by position.

  /** How many sources stand before the `i`th entry. */
  function Rank(entries: Entries, i: nat): nat
    requires i <= |entries|
  {
    if i == 0 then 0 else Rank(entries, i - 1) + (if entries[i - 1].Source? then 1 else 0)
  }

  function CompiledAt(entries: Entries, codes: seq<Bytes>, i: nat): Snippet
    requires i < |entries|
  {
    if entries[i].Source? && Rank(entries, i) < |codes| then Bytecode(codes[Rank(entries, i)]) else entries[i]
  }

  /** The k-th source becomes the k-th bytecode, and everything else stays where it is. */
  function Compiled(entries: Entries, codes: seq<Bytes>): (r: Entries)
    ensures |r| == |entries|
  {
    seq(|entries|, i requires 0 <= i < |entries| => CompiledAt(entries, codes, i))
  }

  ghost function SourcesBefore(entries: Entries, i: nat): set<nat>
    requires i <= |entries|
  {
    set j: nat | j < i && entries[j].Source?
  }

  lemma {:induction false} RankCounts(entries: Entries, i: nat)
    requires i <= |entries|
    ensures Rank(entries, i) == |SourcesBefore(entries, i)|
  {
    if i > 0 {
      RankCounts(entries, i - 1);
      CountOne(SourcesBefore(entries, i - 1), SourcesBefore(entries, i), i - 1);
    }
  }

  /** An entry with `k` sources before it becomes the `k`th bytecode if it is a source and there is one,
      and else stays as it was. */
  lemma CompiledExactly(entries: Entries, codes: seq<Bytes>, i: nat)
    requires i < |entries|
    ensures var k := |set j: nat | j < i && entries[j].Source?|;
            Compiled(entries, codes)[i] == if entries[i].Source? && k < |codes| then Bytecode(codes[k]) else entries[i]
  {
    RankCounts(entries, i);
  }

  predicate HasSource(entries: Entries) { exists i :: 0 <= i < |entries| && entries[i].Source? }

  class SnippetTable {
    var entries: Entries

    constructor ()
      ensures entries == []
    {
      entries := [];
    }

    method Preload(name: string, body: string) returns (r: Result<(), string>)
      requires DistinctNames(entries)
      modifies this
      ensures DistinctNames(entries)
      ensures r.Success? <==> RegisterSource(old(entries), name, body).Success?
      ensures r.Success? <==>
                Catalog.IsConstantName(name) && forall e :: e in old(entries) && e.Source? ==> e.name != name
      ensures entries == if r.Success? then old(entries) + [Source(name, body)] else old(entries)
    {
      if !Catalog.IsConstantName(name) {
        return Failure("snippet name must be a Ruby constant name");
      }
      var i := 0;
      while i < |entries|
        invariant 0 <= i <= |entries|
        invariant forall k :: 0 <= k < i ==> !Named(entries[k], name)
      {
        if Named(entries[i], name) {
          return Failure("already preloaded");
        }
        i := i + 1;
      }
      entries := entries + [Source(name, body)];
      return Success(());
    }

    /** The rewrite in place: each source takes the next bytecode until either runs out. */
    method PutInPlace(codes: seq<Bytes>)
      modifies this
      ensures entries == Compiled(old(entries), codes)
    {
      var i, next := 0, 0;
      while i < |entries|
        invariant 0 <= i <= |entries| == |old(entries)|
        invariant next == Rank(old(entries), i) <= |codes|
        invariant forall k :: 0 <= k < i ==> entries[k] == CompiledAt(old(entries), codes, k)
        invariant forall k :: i <= k < |entries| ==> entries[k] == old(entries)[k]
      {
        if entries[i].Source? {
          if next == |codes| {
            RankGrows(old(entries), i);
            return;
          }
          entries := entries[i := Bytecode(codes[next])];
          next := next + 1;
        }
        i := i + 1;
      }
    }
  }

  lemma RankGrows(entries: Entries, i: nat)
    requires i <= |entries|
    ensures forall k :: i <= k <= |entries| ==> Rank(entries, i) <= Rank(entries, k)
  {
    var k := i;
    while k < |entries|
      invariant i <= k <= |entries|
      invariant forall m :: i <= m <= k ==> Rank(entries, i) <= Rank(entries, m)
    {
      k := k + 1;
    }
  }

  // The twin keeps its sources and looks each one's bytecode up.

  function Sources(entries: Entries): seq<Snippet> {
    if entries == [] then []
    else (if entries[0].Source? then [entries[0]] else []) + Sources(entries[1..])
  }

  /** `sources.zip(bytecodes).to_h.compact`: a source with no bytecode is paired with nil and dropped,
      and a source met again replaces what it had. */
  function Zipped(sources: seq<Snippet>, codes: seq<Bytes>): map<Snippet, Bytes> {
    if sources == [] then map[]
    else
      var last := |sources| - 1;
      var before := Zipped(sources[..last], codes);
      if last < |codes| then before[sources[last] := codes[last]] else before - {sources[last]}
  }

  function EntryTuple(e: Snippet, compiled: map<Snippet, Bytes>): Snippet {
    if e.Source? && e in compiled then Bytecode(compiled[e]) else e
  }

  function Tuples(entries: Entries, compiled: map<Snippet, Bytes>): (r: Entries)
    ensures |r| == |entries|
  {
    seq(|entries|, i requires 0 <= i < |entries| => EntryTuple(entries[i], compiled))
  }

  function Projected(entries: Entries, codes: seq<Bytes>): Entries {
    Tuples(entries, Zipped(Sources(entries), codes))
  }

  /** The twin's own table: sources stay, and their bytecode is found beside them. */
  class TwinTable {
    var entries: Entries
    var compiled: map<Snippet, Bytes>
    var compileTried: bool

    /** What every invocation replays. */
    ghost function Shown(): Entries
      reads this
    {
      Tuples(entries, compiled)
    }

    constructor ()
      ensures entries == [] && compiled == map[] && !compileTried
    {
      entries, compiled, compileTried := [], map[], false;
    }

    /** Asks for bytecode once in the table's life, and then shows what the rewrite in place would
        have made of an answer of any length. */
    method Compile(answer: Option<seq<Bytes>>) returns (asked: bool)
      requires DistinctNames(entries) && (!compileTried ==> compiled == map[])
      modifies this`compiled, this`compileTried
      ensures compileTried && (asked <==> !old(compileTried) && HasSource(entries))
      ensures Shown() == if asked && answer.Some? then Compiled(entries, answer.value) else old(Shown())
    {
      if compileTried {
        return false;
      }
      compileTried := true;
      var sources := Sources(entries);
      SourcesExist(entries);
      if sources == [] {
        return false;
      }
      if answer.Some? {
        compiled := Zipped(sources, answer.value);
        TwinsAgree(entries, answer.value);
      }
      return true;
    }
  }

  lemma {:induction false} SourcesExist(entries: Entries)
    ensures Sources(entries) != [] <==> HasSource(entries)
  {
    if entries != [] {
      SourcesExist(entries[1..]);
      if i :| 0 <= i < |entries[1..]| && entries[1..][i].Source? {
        assert entries[i + 1].Source?;
      }
    }
  }

  lemma {:induction false} SourceAtRank(entries: Entries, i: nat)
    requires i < |entries| && entries[i].Source?
    ensures Rank(entries, i) < |Sources(entries)| && Sources(entries)[Rank(entries, i)] == entries[i]
  {
    if i > 0 {
      RankShifts(entries, i);
      SourceAtRank(entries[1..], i - 1);
    }
  }

  lemma {:induction false} RankShifts(entries: Entries, i: nat)
    requires 0 < i <= |entries|
    ensures Rank(entries, i) == (if entries[0].Source? then 1 else 0) + Rank(entries[1..], i - 1)
  {
    if i > 1 {
      RankShifts(entries, i - 1);
    }
  }

  lemma {:induction false} SourcesDistinct(entries: Entries)
    requires DistinctNames(entries)
    ensures forall e :: e in Sources(entries) ==> e in entries && e.Source?
    ensures forall i, j :: 0 <= i < j < |Sources(entries)| ==> Sources(entries)[i] != Sources(entries)[j]
  {
    if entries != [] {
      SourcesDistinct(entries[1..]);
      assert forall k :: 0 < k < |entries| ==> entries[k] == entries[1..][k - 1];
    }
  }

  lemma {:induction false} ZippedAt(sources: seq<Snippet>, codes: seq<Bytes>, k: nat)
    requires k < |sources|
    requires forall i, j :: 0 <= i < j < |sources| ==> sources[i] != sources[j]
    ensures sources[k] in Zipped(sources, codes) <==> k < |codes|
    ensures k < |codes| ==> Zipped(sources, codes)[sources[k]] == codes[k]
  {
    var last := |sources| - 1;
    if k < last {
      ZippedAt(sources[..last], codes, k);
    }
  }

  /** For an answer of any length, the projection and the rewrite in place are one table. */
  lemma TwinsAgree(entries: Entries, codes: seq<Bytes>)
    requires DistinctNames(entries)
    ensures Projected(entries, codes) == Compiled(entries, codes)
  {
    SourcesDistinct(entries);
    forall i | 0 <= i < |entries|
      ensures Projected(entries, codes)[i] == Compiled(entries, codes)[i]
    {
      if entries[i].Source? {
        SourceAtRank(entries, i);
        ZippedAt(Sources(entries), codes, Rank(entries, i));
      }
    }
  }
}
