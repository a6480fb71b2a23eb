/** The Service registry of `crates/kobako/src/catalog.rs`: paths told apart by string tests.

    A path is judged as the string the source compares and, beside that, as the sequence of its
    segments; the two views are proved to agree on every constant-form path. */
module Catalog {
  import opened Wrappers

  const RESERVED_NAMESPACE := "Kobako"
  const MAX_SYMBOL_LEN := 65_534

  predicate IsUpper(c: char) { 'A' <= c <= 'Z' }

  predicate IsWord(c: char) { IsUpper(c) || 'a' <= c <= 'z' || '0' <= c <= '9' || c == '_' }

  predicate IsConstantName(name: string) {
    && |name| <= MAX_SYMBOL_LEN
    && name != "" && IsUpper(name[0])
    && forall i :: 0 < i < |name| ==> IsWord(name[i])
  }

  const UPPER := "ABCDEFGHIJKLMNOPQRSTUVWXYZ"
  const LOWER := "abcdefghijklmnopqrstuvwxyz"
  const DIGITS := "0123456789"

  lemma UpperExactly(c: char)
    ensures IsUpper(c) <==> c in UPPER
  {
    if IsUpper(c) {
      assert UPPER[c as int - 'A' as int] == c;
    }
  }

  lemma WordExactly(c: char)
    ensures IsWord(c) <==> c in UPPER || c in LOWER || c in DIGITS || c == '_'
  {
    UpperExactly(c);
    if 'a' <= c <= 'z' {
      assert LOWER[c as int - 'a' as int] == c;
    } else if '0' <= c <= '9' {
      assert DIGITS[c as int - '0' as int] == c;
    }
  }

  /** A constant name is a capital followed by letters, digits and underscores, at most 65534 in all. */
  lemma ConstantNameExactly(name: string)
    ensures IsConstantName(name) <==>
            && 1 <= |name| <= 65_534 && name[0] in UPPER
            && forall c :: c in name ==> c in UPPER || c in LOWER || c in DIGITS || c == '_'
  {
    if name != "" {
      UpperExactly(name[0]);
      forall c ensures IsWord(c) <==> c in UPPER || c in LOWER || c in DIGITS || c == '_' {
        WordExactly(c);
      }
      assert forall i :: 0 <= i < |name| ==> name[i] in name;
    }
  }

  /** `str::split("::")`. */
  function Split(s: string): (segments: seq<string>)
    ensures segments != []
  {
    if |s| < 2 then [s]
    else if s[..2] == "::" then [""] + Split(s[2..])
    else
      var rest := Split(s[1..]);
      [[s[0]] + rest[0]] + rest[1..]
  }

  function Join(segments: seq<string>): string
    requires segments != []
  {
    if |segments| == 1 then segments[0] else segments[0] + "::" + Join(segments[1..])
  }

  predicate IsConstantPath(path: string) {
    forall segment :: segment in Split(path) ==> IsConstantName(segment)
  }

  predicate IsReserved(path: string) { Split(path)[0] == RESERVED_NAMESPACE }

  predicate StartsWith(s: string, prefix: string) { prefix <= s }

  predicate Conflicts(existing: string, path: string) {
    existing == path || StartsWith(existing, path + "::") || StartsWith(path, existing + "::")
  }

  // Strings and segments.

  predicate NoColon(s: string) { ':' !in s }

  lemma {:induction false} JoinSplit(s: string)
    ensures Join(Split(s)) == s
  {
    if |s| >= 2 {
      if s[..2] == "::" {
        JoinSplit(s[2..]);
        assert ([""] + Split(s[2..]))[1..] == Split(s[2..]);
        assert s == "" + "::" + s[2..];
      } else {
        JoinSplit(s[1..]);
        var rest := Split(s[1..]);
        assert s == [s[0]] + s[1..];
        if |rest| > 1 {
          assert Join(Split(s)) == ([s[0]] + rest[0]) + "::" + Join(rest[1..]);
          assert s[1..] == rest[0] + "::" + Join(rest[1..]);
        }
      }
    }
  }

  lemma {:induction false} SplitPlain(segment: string)
    requires NoColon(segment)
    ensures Split(segment) == [segment]
  {
    if |segment| >= 2 {
      assert segment[0] != ':';
      SplitPlain(segment[1..]);
      assert segment == [segment[0]] + segment[1..];
    }
  }

  lemma {:induction false} SplitSegment(segment: string, rest: string)
    requires NoColon(segment)
    ensures Split(segment + "::" + rest) == [segment] + Split(rest)
  {
    var s := segment + "::" + rest;
    if segment == "" {
      assert s[..2] == "::" && s[2..] == rest;
    } else {
      assert s[0] == segment[0] != ':';
      assert s[1..] == segment[1..] + "::" + rest;
      SplitSegment(segment[1..], rest);
      assert segment == [segment[0]] + segment[1..];
    }
  }

  lemma Reassociate(a: string, b: string, c: string)
    ensures (a + "::" + b) + "::" + c == a + "::" + (b + "::" + c)
  {
  }

  lemma {:induction false} SplitJoined(segments: seq<string>, rest: string)
    requires segments != [] && forall x :: x in segments ==> NoColon(x)
    ensures Split(Join(segments) + "::" + rest) == segments + Split(rest)
  {
    if |segments| == 1 {
      SplitSegment(segments[0], rest);
      assert segments == [segments[0]];
    } else {
      var tail := Join(segments[1..]) + "::" + rest;
      Reassociate(segments[0], Join(segments[1..]), rest);
      SplitSegment(segments[0], tail);
      SplitJoined(segments[1..], rest);
      assert segments == [segments[0]] + segments[1..];
    }
  }

  lemma {:induction false} JoinSplits(a: seq<string>, b: seq<string>)
    requires a != [] && b != []
    ensures Join(a + b) == Join(a) + "::" + Join(b)
  {
    if |a| == 1 {
      assert (a + b)[1..] == b;
    } else {
      assert (a + b)[1..] == a[1..] + b;
      JoinSplits(a[1..], b);
      Reassociate(a[0], Join(a[1..]), Join(b));
    }
  }

  lemma ConstantSegmentsPlain(path: string)
    requires IsConstantPath(path)
    ensures forall x :: x in Split(path) ==> NoColon(x)
  {
  }

  lemma StartingGivesSegments(p: string, rest: string)
    requires IsConstantPath(p)
    ensures Split(p + "::" + rest) == Split(p) + Split(rest)
  {
    ConstantSegmentsPlain(p);
    JoinSplit(p);
    SplitJoined(Split(p), rest);
  }

  lemma SegmentsGiveStart(p: string, q: string)
    requires Split(p) < Split(q)
    ensures StartsWith(q, p + "::")
  {
    var rest := Split(q)[|Split(p)|..];
    assert Split(q) == Split(p) + rest;
    JoinSplits(Split(p), rest);
    JoinSplit(p);
    JoinSplit(q);
  }

  /** The raw string test decides proper segment prefix: `p` is a namespace around `q`. */
  lemma StartsWithIsSegmentPrefix(p: string, q: string)
    requires IsConstantPath(p)
    ensures StartsWith(q, p + "::") <==> Split(p) < Split(q)
  {
    if StartsWith(q, p + "::") {
      var rest := q[|p| + 2..];
      assert q == p + "::" + rest;
      StartingGivesSegments(p, rest);
    } else if Split(p) < Split(q) {
      SegmentsGiveStart(p, q);
    }
  }

  /** Two constant paths conflict exactly when one's segments begin the other's. */
  lemma ConflictsExactly(p: string, q: string)
    requires IsConstantPath(p) && IsConstantPath(q)
    ensures Conflicts(p, q) <==> Split(p) <= Split(q) || Split(q) <= Split(p)
  {
    StartsWithIsSegmentPrefix(p, q);
    StartsWithIsSegmentPrefix(q, p);
    assert Split(p) == Split(q) ==> p == q by {
      JoinSplit(p);
      JoinSplit(q);
    }
    assert Split(p) <= Split(q) <==> Split(p) < Split(q) || Split(p) == Split(q);
    assert Split(q) <= Split(p) <==> Split(q) < Split(p) || Split(p) == Split(q);
  }

  // The registry.

  datatype Refusal = NotConstant | InReserved | Taken

  type Bindings<T> = seq<(string, T)>

  /** Every bound path is one a guest can name, and no path is another or a namespace around it. */
  ghost predicate Antichain<T>(bindings: Bindings<T>) {
    && (forall i :: 0 <= i < |bindings| ==> IsConstantPath(bindings[i].0) && Split(bindings[i].0)[0] != "Kobako")
    && (forall i, j :: 0 <= i < j < |bindings| ==> Apart(bindings[i].0, bindings[j].0))
  }

  /** Neither path is the other, or a namespace around it, segment by segment. */
  ghost predicate Apart(p: string, q: string) { !(Split(p) <= Split(q)) && !(Split(q) <= Split(p)) }

  function BindOne<T>(bindings: Bindings<T>, path: string, x: T): Bindings<T> {
    if IsConstantPath(path) && !IsReserved(path) &&
       forall i :: 0 <= i < |bindings| ==> !Conflicts(bindings[i].0, path)
    then bindings + [(path, x)]
    else bindings
  }

  function BindAll<T>(requests: Bindings<T>): Bindings<T> {
    if requests == [] then []
    else
      var last := |requests| - 1;
      BindOne(BindAll(requests[..last]), requests[last].0, requests[last].1)
  }

  /** A path that may be bound beside those bound already. */
  ghost predicate Bindable<T>(bindings: Bindings<T>, path: string) {
    && IsConstantPath(path) && Split(path)[0] != "Kobako"
    && forall i :: 0 <= i < |bindings| ==> Apart(bindings[i].0, path)
  }

  lemma BindKeepsAntichain<T>(bindings: Bindings<T>, path: string, x: T)
    requires Antichain(bindings)
    ensures Antichain(BindOne(bindings, path, x))
    ensures BindOne(bindings, path, x) == bindings + (if Bindable(bindings, path) then [(path, x)] else [])
  {
    if IsConstantPath(path) {
      forall i | 0 <= i < |bindings|
        ensures Apart(bindings[i].0, path) <==> !Conflicts(bindings[i].0, path)
      {
        ConflictsExactly(bindings[i].0, path);
      }
    }
  }

  /** After any sequence of requests, refused ones among them, the bound paths are an antichain under
      segment prefix, none of them reserved. */
  lemma {:induction false} AlwaysAntichain<T>(requests: Bindings<T>)
    ensures Antichain(BindAll(requests))
  {
    if requests != [] {
      var last := |requests| - 1;
      AlwaysAntichain(requests[..last]);
      BindKeepsAntichain(BindAll(requests[..last]), requests[last].0, requests[last].1);
    }
  }

  ghost predicate Bound<T>(bindings: Bindings<T>, path: string, x: T) {
    (path, x) in bindings
  }

  class Catalog<T> {
    var bindings: Bindings<T>

    constructor ()
      ensures bindings == [] && Antichain(bindings)
    {
      bindings := [];
    }

    /** Refuses exactly a path that is not constant-form, is reserved, or is comparable, segment by
        segment, with one already bound; a refusal changes nothing. */
    method Bind(path: string, x: T) returns (r: Result<(), Refusal>)
      requires Antichain(bindings)
      modifies this
      ensures Antichain(bindings)
      ensures r.Success? <==> Bindable(old(bindings), path)
      ensures bindings == BindOne(old(bindings), path, x)
      ensures bindings == old(bindings) + (if r.Success? then [(path, x)] else [])
    {
      if !IsConstantPath(path) {
        return Failure(NotConstant);
      }
      if IsReserved(path) {
        return Failure(InReserved);
      }
      var taken := Collides(path);
      if taken {
        BindKeepsAntichain(bindings, path, x);
        return Failure(Taken);
      }
      BindKeepsAntichain(bindings, path, x);
      bindings := bindings + [(path, x)];
      return Success(());
    }

    method Collides(path: string) returns (taken: bool)
      requires Antichain(bindings) && IsConstantPath(path)
      ensures taken <==> !(forall i :: 0 <= i < |bindings| ==> Apart(bindings[i].0, path))
    {
      var i := 0;
      while i < |bindings|
        invariant 0 <= i <= |bindings|
        invariant forall k :: 0 <= k < i ==> Apart(bindings[k].0, path)
      {
        ConflictsExactly(bindings[i].0, path);
        if Conflicts(bindings[i].0, path) {
          return true;
        }
        i := i + 1;
      }
      return false;
    }

    /** First match, which on an antichain is the only one. */
    method Lookup(path: string) returns (found: Option<T>)
      requires Antichain(bindings)
      ensures found.Some? <==> exists x :: Bound(bindings, path, x)
      ensures forall x :: Bound(bindings, path, x) ==> found == Some(x)
    {
      var i := 0;
      while i < |bindings|
        invariant 0 <= i <= |bindings|
        invariant forall k :: 0 <= k < i ==> bindings[k].0 != path
      {
        if bindings[i].0 == path {
          assert Bound(bindings, path, bindings[i].1);
          return Some(bindings[i].1);
        }
        i := i + 1;
      }
      return None;
    }
  }
}
