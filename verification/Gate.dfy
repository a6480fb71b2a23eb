/** The benchmark gate's judgement over real numbers: `benchmark/support/comparator.rb`.

    The band one run's own sampling gives is an arbitrary function of the two rows; the claims hold
    whatever it is. */
module Gate {
  import opened Wrappers

  const FLOOR_PCT := 10.0
  const SIGMA := 2.0
  const MAX_ARCHIVE_BAND_PCT := 30.0

  datatype Metric = WallTime | Ips

  /** The central values a row records; a row may record either, both or none. */
  datatype Row = Row(wallTime: Option<real>, ips: Option<real>)

  type Noise = (Row, Row, Metric) -> real
  type Key = (string, string)
  type History = map<(Key, Metric), real>

  datatype Finding = Finding(key: Key, metric: Metric, baseline: real, current: real, deltaPct: real, bandPct: real)
  datatype Widening = Widening(key: Key, metric: Metric, recordedPct: real, archivePct: real, capped: bool)

  function GateMetric(row: Row): Option<Metric> {
    if row.wallTime.Some? then Some(WallTime) else if row.ips.Some? then Some(Ips) else None
  }

  function Central(row: Row, metric: Metric): real {
    var recorded := if metric == WallTime then row.wallTime else row.ips;
    if recorded.Some? then recorded.value else 0.0
  }

  function RegressionPct(metric: Metric, base: real, cur: real): real
    requires base != 0.0
  {
    if metric == WallTime then (cur - base) / base * 100.0 else (base - cur) / base * 100.0
  }

  function Min(a: real, b: real): real { if a < b then a else b }
  function Max(a: real, b: real): real { if a < b then b else a }

  function Move(history: History, key: Key, metric: Metric): real {
    if (key, metric) in history then history[(key, metric)] else 0.0
  }

  function BetweenRunBand(move: real): real { Min(SIGMA * move * 100.0, MAX_ARCHIVE_BAND_PCT) }

  function BandFor(row: Row, base: Row, metric: Metric, noise: Noise, move: real): real {
    Max(noise(row, base, metric), BetweenRunBand(move))
  }

  function FindingFor(key: Key, row: Row, base: Row, noise: Noise, history: History): Option<Finding> {
    var gated := GateMetric(row);
    if gated.None? then None
    else
      var metric := gated.value;
      var cur, was := Central(row, metric), Central(base, metric);
      if cur == 0.0 || was == 0.0 then None
      else
        var delta := RegressionPct(metric, was, cur);
        var band := BandFor(row, base, metric, noise, Move(history, key, metric));
        if delta > FLOOR_PCT && delta > band then Some(Finding(key, metric, was, cur, delta, band)) else None
  }

  function WideningFor(key: Key, row: Row, base: Row, noise: Noise, history: History): Option<Widening> {
    var gated := GateMetric(row);
    if gated.None? then None
    else
      var archive := BetweenRunBand(Move(history, key, gated.value));
      var recorded := noise(row, base, gated.value);
      if archive > recorded && archive > FLOOR_PCT
      then Some(Widening(key, gated.value, recorded, archive, archive >= MAX_ARCHIVE_BAND_PCT))
      else None
  }

  /** A band is never negative, whatever the sampling. */
  ghost predicate Sane(noise: Noise) {
    forall row, base, metric :: noise(row, base, metric) >= 0.0
  }

  /** A row the gate can judge, and by how many percent it regressed: its wall time where it records
      one, else its rate, against the same figure of the anchor. */
  ghost predicate Judged(row: Row, base: Row, metric: Metric, delta: real) {
    var cur := if metric.WallTime? then row.wallTime else row.ips;
    var was := if metric.WallTime? then base.wallTime else base.ips;
    && (metric.Ips? ==> row.wallTime.None?)
    && cur.Some? && was.Some? && cur.value != 0.0 && was.value != 0.0
    && cur.value == was.value * (if metric.WallTime? then 1.0 + delta / 100.0 else 1.0 - delta / 100.0)
  }

  /** A regression of `delta` percent is a wall time that much longer, or a rate that much lower. */
  lemma RegressionMeans(metric: Metric, base: real, cur: real, delta: real)
    requires base != 0.0
    ensures delta == RegressionPct(metric, base, cur) <==>
            cur == base * (if metric == WallTime then 1.0 + delta / 100.0 else 1.0 - delta / 100.0)
  {
  }

  /** A regression of `delta` percent is past the floor, the row's own band and the archive's, which is
      twice the archived move and at most 30%. */
  ghost predicate Past(row: Row, base: Row, metric: Metric, noise: Noise, move: real, delta: real) {
    delta > 10.0 && delta > noise(row, base, metric) && (delta > 200.0 * move || delta > 30.0)
  }

  lemma PastIsBand(row: Row, base: Row, metric: Metric, noise: Noise, move: real, delta: real)
    ensures Past(row, base, metric, noise, move, delta) <==>
            delta > FLOOR_PCT && delta > BandFor(row, base, metric, noise, move)
  {
  }

  /** The figure judged is the row's gated one, and the percentage the one it regressed by. */
  lemma JudgedIsGated(row: Row, base: Row, metric: Metric, delta: real)
    ensures Judged(row, base, metric, delta) <==>
            && GateMetric(row) == Some(metric) && Central(row, metric) != 0.0 && Central(base, metric) != 0.0
            && delta == RegressionPct(metric, Central(base, metric), Central(row, metric))
  {
    if Central(base, metric) != 0.0 {
      RegressionMeans(metric, Central(base, metric), Central(row, metric), delta);
    }
  }

  /** A row is a finding exactly when it can be judged and regressed past the floor and both bands. */
  lemma JudgedExactly(key: Key, row: Row, base: Row, noise: Noise, history: History)
    ensures FindingFor(key, row, base, noise, history).Some? <==>
            exists metric, delta ::
              Judged(row, base, metric, delta) && Past(row, base, metric, noise, Move(history, key, metric), delta)
    ensures forall metric, delta, metric', delta' ::
              Judged(row, base, metric, delta) && Judged(row, base, metric', delta') ==>
                metric == metric' && delta == delta'
  {
    forall metric, delta
      ensures Judged(row, base, metric, delta) <==>
              && GateMetric(row) == Some(metric) && Central(row, metric) != 0.0 && Central(base, metric) != 0.0
              && delta == RegressionPct(metric, Central(base, metric), Central(row, metric))
    {
      JudgedIsGated(row, base, metric, delta);
    }
    var gated := GateMetric(row);
    if gated.Some? && Central(row, gated.value) != 0.0 && Central(base, gated.value) != 0.0 {
      var delta := RegressionPct(gated.value, Central(base, gated.value), Central(row, gated.value));
      assert Judged(row, base, gated.value, delta);
      PastIsBand(row, base, gated.value, noise, Move(history, key, gated.value), delta);
    }
  }

  /** What a finding reports: the figure judged, now and at the anchor, and by how much it regressed. */
  lemma FindingReports(key: Key, row: Row, base: Row, noise: Noise, history: History)
    requires FindingFor(key, row, base, noise, history).Some?
    ensures var f := FindingFor(key, row, base, noise, history).value;
            && f.key == key && Judged(row, base, f.metric, f.deltaPct)
            && Past(row, base, f.metric, noise, Move(history, key, f.metric), f.deltaPct)
            && Some(f.current) == (if f.metric.WallTime? then row.wallTime else row.ips)
            && Some(f.baseline) == (if f.metric.WallTime? then base.wallTime else base.ips)
            && f.bandPct >= noise(row, base, f.metric) && f.deltaPct > f.bandPct
  {
    var f := FindingFor(key, row, base, noise, history).value;
    RegressionMeans(f.metric, f.baseline, f.current, f.deltaPct);
    PastIsBand(row, base, f.metric, noise, Move(history, key, f.metric), f.deltaPct);
  }

  /** The archive changes a row's verdict exactly when the regression lies past the floor and the row's
      own band and not past the archive's, and a Widening names every row where it could. */
  lemma ArchiveChangesExactly(key: Key, row: Row, base: Row, noise: Noise, history: History)
    requires Sane(noise)
    ensures FindingFor(key, row, base, noise, history).Some? != FindingFor(key, row, base, noise, map[]).Some? <==>
            exists metric, delta :: Judged(row, base, metric, delta) &&
              delta > 10.0 && delta > noise(row, base, metric) && delta <= 30.0 &&
              (key, metric) in history && delta <= 200.0 * history[(key, metric)]
    ensures FindingFor(key, row, base, noise, history).Some? != FindingFor(key, row, base, noise, map[]).Some? ==>
            WideningFor(key, row, base, noise, history).Some?
  {
    JudgedExactly(key, row, base, noise, history);
    JudgedExactly(key, row, base, noise, map[]);
    assert forall metric :: noise(row, base, metric) >= 0.0;
  }

  /** A row is named as widened exactly when the archive's band, twice the move and at most 30%, is past
      both the floor and the row's own, and with those bands. */
  lemma WideningExactly(key: Key, row: Row, base: Row, noise: Noise, history: History, metric: Metric)
    requires if metric.WallTime? then row.wallTime.Some? else row.wallTime.None? && row.ips.Some?
    ensures var move, own := Move(history, key, metric), noise(row, base, metric);
            var band := if 200.0 * move < 30.0 then 200.0 * move else 30.0;
            WideningFor(key, row, base, noise, history) ==
            if band > own && band > 10.0 then Some(Widening(key, metric, own, band, 200.0 * move >= 30.0)) else None
  {
  }

  /** Findings never go past the bare floor rule, and a regression past both the archive's ceiling and
      the row's own band is always one, whatever was archived. */
  lemma FindingsBounded(key: Key, row: Row, base: Row, noise: Noise, history: History, metric: Metric, delta: real)
    requires Judged(row, base, metric, delta)
    ensures FindingFor(key, row, base, noise, history).Some? ==> delta > 10.0 && delta > noise(row, base, metric)
    ensures delta > 30.0 && delta > noise(row, base, metric) ==>
              FindingFor(key, row, base, noise, history).Some?
  {
    JudgedExactly(key, row, base, noise, history);
  }

  // A whole run against an anchor.

  function Compare(rows: seq<(Key, Row)>, base: map<Key, Row>, noise: Noise, history: History): seq<Finding> {
    if rows == [] then []
    else
      var (key, row) := rows[0];
      var first := if key in base then FindingFor(key, row, base[key], noise, history) else None;
      (if first.Some? then [first.value] else []) + Compare(rows[1..], base, noise, history)
  }

  function ArchiveWidened(rows: seq<(Key, Row)>, base: map<Key, Row>, noise: Noise, history: History): seq<Widening> {
    if rows == [] then []
    else
      var (key, row) := rows[0];
      var first := if key in base then WideningFor(key, row, base[key], noise, history) else None;
      (if first.Some? then [first.value] else []) + ArchiveWidened(rows[1..], base, noise, history)
  }

  /** A run's findings are exactly those of its rows that the anchor has too. */
  lemma {:induction false} CompareExactly(
      rows: seq<(Key, Row)>, base: map<Key, Row>, noise: Noise, history: History, f: Finding)
    ensures f in Compare(rows, base, noise, history) <==>
            exists row :: (f.key, row) in rows && f.key in base && FindingFor(f.key, row, base[f.key], noise, history) == Some(f)
  {
    if rows != [] {
      var (key, row) := rows[0];
      CompareExactly(rows[1..], base, noise, history, f);
      assert rows == [rows[0]] + rows[1..];
      if key in base && FindingFor(key, row, base[key], noise, history).Some? {
        FindingReports(key, row, base[key], noise, history);
      }
    }
  }

  /** Every row the anchor has too that regressed past the floor and both bands is reported. */
  lemma EveryRegressionReported(
      rows: seq<(Key, Row)>, base: map<Key, Row>, noise: Noise, history: History, key: Key, row: Row, metric: Metric,
      delta: real)
    requires (key, row) in rows && key in base && Judged(row, base[key], metric, delta)
    requires Past(row, base[key], metric, noise, Move(history, key, metric), delta)
    ensures exists f :: f in Compare(rows, base, noise, history) && f.key == key && f.metric == metric && f.deltaPct == delta
  {
    JudgedExactly(key, row, base[key], noise, history);
    FindingReports(key, row, base[key], noise, history);
    var f := FindingFor(key, row, base[key], noise, history).value;
    CompareExactly(rows, base, noise, history, f);
  }

  function Flagged(findings: seq<Finding>): seq<(Key, Metric, real)> {
    if findings == [] then []
    else [(findings[0].key, findings[0].metric, findings[0].deltaPct)] + Flagged(findings[1..])
  }

  /** A gate that names no row as widened by the archive flags what it would flag without one, row by
      row and in order. */
  lemma {:induction false} NothingHiddenSilently(rows: seq<(Key, Row)>, base: map<Key, Row>, noise: Noise, history: History)
    requires Sane(noise) && ArchiveWidened(rows, base, noise, history) == []
    ensures Flagged(Compare(rows, base, noise, history)) == Flagged(Compare(rows, base, noise, map[]))
  {
    if rows != [] {
      var (key, row) := rows[0];
      var with, without := Compare(rows[1..], base, noise, history), Compare(rows[1..], base, noise, map[]);
      NothingHiddenSilently(rows[1..], base, noise, history);
      assert [] + with == with && [] + without == without;
      if key in base {
        ArchiveChangesExactly(key, row, base[key], noise, history);
        var a := FindingFor(key, row, base[key], noise, history);
        var b := FindingFor(key, row, base[key], noise, map[]);
        assert WideningFor(key, row, base[key], noise, history).None?;
        if a.Some? {
          assert ([a.value] + with)[1..] == with && ([b.value] + without)[1..] == without;
        }
      }
    }
  }
}

/** The median of `benchmark/support/stats.rb`. */
module Stats {
  ghost predicate Sorted(s: seq<real>) { forall i, j :: 0 <= i < j < |s| ==> s[i] <= s[j] }

  function Insert(x: real, s: seq<real>): (r: seq<real>)
    ensures |r| == |s| + 1
  {
    if s == [] || x <= s[0] then [x] + s else [s[0]] + Insert(x, s[1..])
  }

  function Sort(s: seq<real>): (r: seq<real>)
    ensures |r| == |s|
  {
    if s == [] then [] else Insert(s[|s| - 1], Sort(s[..|s| - 1]))
  }

  function Median(values: seq<real>): real {
    if values == [] then 0.0
    else
      var sorted := Sort(values);
      var mid := |sorted| / 2;
      if |sorted| % 2 == 1 then sorted[mid] else (sorted[mid - 1] + sorted[mid]) / 2.0
  }

  function Count(s: seq<real>, p: real -> bool): nat {
    if s == [] then 0 else Count(s[..|s| - 1], p) + (if p(s[|s| - 1]) then 1 else 0)
  }

  lemma {:induction false} InsertMembers(x: real, s: seq<real>)
    ensures multiset(Insert(x, s)) == multiset(s) + multiset{x}
  {
    if s != [] && x > s[0] {
      InsertMembers(x, s[1..]);
      assert s == [s[0]] + s[1..];
    }
  }

  lemma {:induction false} InsertSorted(x: real, s: seq<real>)
    requires Sorted(s)
    ensures Sorted(Insert(x, s))
    ensures forall i :: 0 <= i < |Insert(x, s)| ==> Insert(x, s)[i] == x || Insert(x, s)[i] in s
  {
    if s != [] && x > s[0] {
      InsertSorted(x, s[1..]);
    }
  }

  lemma {:induction false} SortIsSort(s: seq<real>)
    ensures Sorted(Sort(s)) && multiset(Sort(s)) == multiset(s)
  {
    if s != [] {
      var before := s[..|s| - 1];
      SortIsSort(before);
      InsertSorted(s[|s| - 1], Sort(before));
      InsertMembers(s[|s| - 1], Sort(before));
      assert s == before + [s[|s| - 1]];
    }
  }

  lemma {:induction false} CountConcat(a: seq<real>, b: seq<real>, p: real -> bool)
    ensures Count(a + b, p) == Count(a, p) + Count(b, p)
  {
    if b == [] {
      assert a + b == a;
    } else {
      assert (a + b)[..|a + b| - 1] == a + b[..|b| - 1];
      CountConcat(a, b[..|b| - 1], p);
    }
  }

  lemma {:induction false} CountInsert(x: real, s: seq<real>, p: real -> bool)
    ensures Count(Insert(x, s), p) == Count(s, p) + Count([x], p)
  {
    if s == [] || x <= s[0] {
      CountConcat([x], s, p);
    } else {
      CountInsert(x, s[1..], p);
      CountConcat([s[0]], Insert(x, s[1..]), p);
      CountConcat([s[0]], s[1..], p);
      assert s == [s[0]] + s[1..];
    }
  }

  lemma {:induction false} CountSort(s: seq<real>, p: real -> bool)
    ensures Count(Sort(s), p) == Count(s, p)
  {
    if s != [] {
      CountSort(s[..|s| - 1], p);
      CountInsert(s[|s| - 1], Sort(s[..|s| - 1]), p);
    }
  }

  lemma {:induction false} CountAll(s: seq<real>, p: real -> bool)
    requires forall i :: 0 <= i < |s| ==> p(s[i])
    ensures Count(s, p) == |s|
  {
    if s != [] {
      CountAll(s[..|s| - 1], p);
    }
  }

  /** Samples that satisfy `p` sit only at the indices `touched`, so there are no more of them. */
  lemma {:induction false} CountTouched(s: seq<real>, touched: set<nat>, p: real -> bool)
    requires forall i: nat :: i < |s| && p(s[i]) ==> i in touched
    ensures Count(s, p) <= |touched|
  {
    if s != [] {
      var last := |s| - 1;
      if p(s[last]) {
        CountTouched(s[..last], touched - {last}, p);
        assert touched == (touched - {last}) + {last};
      } else {
        CountTouched(s[..last], touched, p);
      }
    }
  }

  lemma CountStretch(r: seq<real>, from: nat, to: nat, p: real -> bool)
    requires from <= to <= |r| && forall i :: from <= i < to ==> p(r[i])
    ensures Count(r, p) >= to - from
  {
    assert forall i :: 0 <= i < to - from ==> r[from..to][i] == r[from + i];
    CountAll(r[from..to], p);
    assert r == r[..from] + r[from..to] + r[to..];
    CountConcat(r[..from] + r[from..to], r[to..], p);
    CountConcat(r[..from], r[from..to], p);
  }

  /** Fewer bad samples than stand at or before `k` leave the `k`th of the sorted good. */
  lemma FromBelow(s: seq<real>, k: nat, lo: real, touched: set<nat>)
    requires k < |s| && |touched| <= k
    requires forall i: nat :: i < |s| && i !in touched ==> lo <= s[i]
    ensures |Sort(s)| == |s| && lo <= Sort(s)[k]
  {
    SortIsSort(s);
    var p := (x: real) => x < lo;
    if Sort(s)[k] < lo {
      CountStretch(Sort(s), 0, k + 1, p);
      CountSort(s, p);
      CountTouched(s, touched, p);
    }
  }

  lemma FromAbove(s: seq<real>, k: nat, hi: real, touched: set<nat>)
    requires k < |s| && |touched| < |s| - k
    requires forall i: nat :: i < |s| && i !in touched ==> s[i] <= hi
    ensures |Sort(s)| == |s| && Sort(s)[k] <= hi
  {
    SortIsSort(s);
    var p := (x: real) => x > hi;
    if Sort(s)[k] > hi {
      CountStretch(Sort(s), k, |s|, p);
      CountSort(s, p);
      CountTouched(s, touched, p);
    }
  }

  /** Whatever fewer than half of the samples are replaced by, the median stays within any range that
      holds the samples left alone. */
  lemma MedianRobust(values: seq<real>, touched: set<nat>, lo: real, hi: real)
    requires values != [] && 2 * |touched| < |values|
    requires forall i: nat :: i < |values| && i !in touched ==> lo <= values[i] <= hi
    ensures lo <= Median(values) <= hi
  {
    var n, mid := |values|, |values| / 2;
    FromBelow(values, mid, lo, touched);
    FromAbove(values, mid, hi, touched);
    if n % 2 == 0 {
      FromBelow(values, mid - 1, lo, touched);
      FromAbove(values, mid - 1, hi, touched);
    }
  }

  lemma SameSize(a: seq<real>, b: seq<real>)
    requires multiset(a) == multiset(b)
    ensures |a| == |b|
  {
    assert |a| == |multiset(a)| == |b|;
  }

  lemma LastIsGreatest(s: seq<real>, other: seq<real>)
    requires Sorted(s) && s != [] && other != [] && multiset(s) == multiset(other)
    ensures other[|other| - 1] <= s[|s| - 1]
  {
    var x := other[|other| - 1];
    assert x in multiset(other) && x in s;
    var k :| 0 <= k < |s| && s[k] == x;
  }

  lemma Trim(a: seq<real>, b: seq<real>)
    requires a != [] && |a| == |b| && multiset(a) == multiset(b) && a[|a| - 1] == b[|b| - 1]
    ensures multiset(a[..|a| - 1]) == multiset(b[..|b| - 1])
  {
    assert a == a[..|a| - 1] + [a[|a| - 1]];
    assert b == b[..|b| - 1] + [b[|b| - 1]];
    assert multiset(a[..|a| - 1]) == multiset(a) - multiset{a[|a| - 1]};
    assert multiset(b[..|b| - 1]) == multiset(b) - multiset{b[|b| - 1]};
  }

  lemma SortedFront(s: seq<real>, k: nat)
    requires Sorted(s) && k <= |s|
    ensures Sorted(s[..k])
  {
  }

  lemma Rebuild(a: seq<real>, b: seq<real>)
    requires a != [] && |a| == |b| && a[..|a| - 1] == b[..|b| - 1] && a[|a| - 1] == b[|b| - 1]
    ensures a == b
  {
    assert a == a[..|a| - 1] + [a[|a| - 1]];
    assert b == b[..|b| - 1] + [b[|b| - 1]];
  }

  /** Samples have one sorted order. */
  lemma {:induction false} SortedUnique(a: seq<real>, b: seq<real>)
    requires Sorted(a) && Sorted(b) && multiset(a) == multiset(b)
    ensures a == b
  {
    SameSize(a, b);
    if a != [] {
      LastIsGreatest(a, b);
      LastIsGreatest(b, a);
      Trim(a, b);
      SortedFront(a, |a| - 1);
      SortedFront(b, |b| - 1);
      SortedUnique(a[..|a| - 1], b[..|b| - 1]);
      Rebuild(a, b);
    }
  }

  /** The median is the mean of the two middle samples in order, which for an odd count are one; of no
      samples it is zero. */
  lemma MedianExactly(values: seq<real>, sorted: seq<real>)
    requires Sorted(sorted) && multiset(sorted) == multiset(values)
    ensures |sorted| == |values|
    ensures if values == [] then Median(values) == 0.0
            else 2.0 * Median(values) == sorted[(|values| - 1) / 2] + sorted[|values| / 2]
  {
    SortIsSort(values);
    SortedUnique(sorted, Sort(values));
  }

  function AtMost(m: real): real -> bool { x => x <= m }
  function AtLeast(m: real): real -> bool { x => x >= m }

  lemma HalfAtMost(values: seq<real>, k: nat, m: real)
    requires k < |values| && 2 * (k + 1) >= |values| && |Sort(values)| == |values| && Sort(values)[k] <= m
    ensures 2 * Count(values, AtMost(m)) >= |values|
  {
    SortIsSort(values);
    CountStretch(Sort(values), 0, k + 1, AtMost(m));
    CountSort(values, AtMost(m));
  }

  lemma HalfAtLeast(values: seq<real>, k: nat, m: real)
    requires k < |values| && 2 * k <= |values| && |Sort(values)| == |values| && m <= Sort(values)[k]
    ensures 2 * Count(values, AtLeast(m)) >= |values|
  {
    SortIsSort(values);
    CountStretch(Sort(values), k, |values|, AtLeast(m));
    CountSort(values, AtLeast(m));
  }

  /** At least half the samples are no greater than the median, and at least half no less. */
  lemma MedianSplits(values: seq<real>)
    ensures 2 * Count(values, AtMost(Median(values))) >= |values|
    ensures 2 * Count(values, AtLeast(Median(values))) >= |values|
  {
    if values != [] {
      SortIsSort(values);
      var sorted, m, mid := Sort(values), Median(values), |values| / 2;
      if |values| % 2 == 1 {
        HalfAtMost(values, mid, m);
      } else {
        assert sorted[mid - 1] <= sorted[mid];
        HalfAtMost(values, mid - 1, m);
      }
      HalfAtLeast(values, mid, m);
    }
  }
}
