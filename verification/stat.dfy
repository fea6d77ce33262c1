/** The statistics aggregator of package `coza` (stat.go): a single pass
    over the measurements, in arrival order, that produces the totals, the
    extremes, the average and three positional "percentiles". */
module Coza {
  import opened GoInt
  import opened SeqStats

  /** One measurement: how long a request took (a `time.Duration`, i.e.
      nanoseconds in an int64) and how many body bytes it read. */
  datatype Metric = Metric(duration: Int64, nRead: Int64)

  /** The aggregate snapshot (`statImpl`). The accumulating fields are
      unbounded: int64 overflow of the running sums is not modelled. */
  datatype Stat = Stat(
    duration: int,
    avg: int,
    min: int,
    med: int,
    max: int,
    p90: int,
    p95: int,
    nRead: int)

  /** What `Calc` returns for no input: every field zero except the
      minimum, which keeps its `math.MaxInt64` starting value. */
  const EmptyStat := Stat(0, 0, MaxInt64, 0, 0, 0, 0, 0)

  function DurationOf(m: Metric): int { m.duration }
  function NReadOf(m: Metric): int { m.nRead }

  /** The durations, in arrival order. */
  function Durations(ms: seq<Metric>): seq<int> { MapSeq(ms, DurationOf) }

  /** The byte counts, in arrival order. */
  function NReads(ms: seq<Metric>): seq<int> { MapSeq(ms, NReadOf) }

  function Max(a: int, b: int): int { if a < b then b else a }

  /** `percentIndex(n, p)`: one less than `n * p / 100` rounded to the
      nearest integer with halves rounded up, and never below zero. The
      source computes the rounding in floating point; here it is exact.
      The index is zero exactly when that nearest integer is at most one
      (`n * p < 150`); otherwise `n * p / 100` lies in `[k + 1/2, k + 3/2)`. */
  function PercentIndex(n: nat, p: nat): (k: nat)
    ensures n * p < 150 <==> k == 0
    ensures n * p >= 150 ==> 100 * k + 50 <= n * p < 100 * k + 150
  {
    var rounded := (n * p + 50) / 100;
    if rounded - 1 > 0 then rounded - 1 else 0
  }

  /** For a non-empty input and a percentage of at most 100 the index is a
      valid position, so the median lookup after the loop and the p90/p95
      hits inside the loop always happen. */
  lemma PercentIndexInBounds(n: nat, p: nat)
    requires n >= 1 && p <= 100
    ensures PercentIndex(n, p) < n
  {
    var k := PercentIndex(n, p);
    if k > 0 {
      assert n * p <= n * 100 by { MulMonotone(n, p, 100); }
      MulCancel(100, k, n);
    }
  }

  /** The running average of the first `count` durations, as the loop
      computes it when it reaches position `count - 1`. */
  function PrefixAvg(ds: seq<int>, count: nat): int
    requires 0 < count <= |ds|
  {
    Quo(Sum(ds[..count]), count)
  }

  /** The declarative description of `Calc`'s result: sums over the whole
      input, the extremes (the maximum floored at its starting value zero),
      the median read at a position of the arrival order, and p90/p95 as
      running averages up to the matching position. */
  function Summary(ms: seq<Metric>): Stat
  {
    if |ms| == 0 then EmptyStat
    else
      var ds, n := Durations(ms), |ms|;
      var k50, k90, k95 := PercentIndex(n, 50), PercentIndex(n, 90), PercentIndex(n, 95);
      PercentIndexInBounds(n, 50);
      PercentIndexInBounds(n, 90);
      PercentIndexInBounds(n, 95);
      Stat(
        duration := Sum(ds),
        avg := Quo(Sum(ds), n),
        min := SeqMin(ds),
        med := ds[k50],
        max := Max(0, SeqMax(ds)),
        p90 := PrefixAvg(ds, k90 + 1),
        p95 := PrefixAvg(ds, k95 + 1),
        nRead := Sum(NReads(ms)))
  }

  /** `Calc`: one pass over the metrics in arrival order, then the median
      read at its position and the average as the total over the count. */
  method Calc(ms: seq<Metric>) returns (s: Stat)
    ensures |ms| == 0 ==> s == EmptyStat
    ensures s.duration == Sum(Durations(ms))
    ensures s.nRead == Sum(NReads(ms))
    ensures |ms| > 0 ==> s.avg == Quo(Sum(Durations(ms)), |ms|)
    ensures |ms| > 0 ==> s.min == SeqMin(Durations(ms))
    ensures |ms| > 0 ==> s.max == Max(0, SeqMax(Durations(ms)))
    ensures |ms| > 0 ==> PercentIndex(|ms|, 50) < |ms| && s.med == ms[PercentIndex(|ms|, 50)].duration
    ensures |ms| > 0 ==> PercentIndex(|ms|, 90) < |ms| && s.p90 == PrefixAvg(Durations(ms), PercentIndex(|ms|, 90) + 1)
    ensures |ms| > 0 ==> PercentIndex(|ms|, 95) < |ms| && s.p95 == PrefixAvg(Durations(ms), PercentIndex(|ms|, 95) + 1)
    ensures s == Summary(ms)
  {
    if |ms| == 0 {
      return EmptyStat;
    }
    var n := |ms|;
    var p90i, p95i := PercentIndex(n, 90), PercentIndex(n, 95);
    PercentIndexInBounds(n, 90);
    PercentIndexInBounds(n, 95);
    s := Scan(ms, p90i, p95i);
    assert Durations(ms)[..n] == Durations(ms);
    assert NReads(ms)[..n] == NReads(ms);

    var medianIndex := PercentIndex(n, 50);
    PercentIndexInBounds(n, 50);
    s := s.(med := ms[medianIndex].duration);
    s := s.(avg := Quo(s.duration, n));
  }

  /** The loop of `Calc`, starting from the empty accumulator: when it
      ends, the accumulator holds the sums and extremes of all durations and
      byte counts and the running averages taken at positions `p90i` and
      `p95i`. */
  method Scan(ms: seq<Metric>, p90i: nat, p95i: nat) returns (s: Stat)
    requires p90i < |ms| && p95i < |ms|
    ensures s == Partial(ms, |ms|, p90i, p95i)
  {
    s := EmptyStat;
    var i := 0;
    while i < |ms|
      invariant 0 <= i <= |ms|
      invariant s == Partial(ms, i, p90i, p95i)
    {
      PartialStep(ms, i, p90i, p95i);
      s := Step(s, ms[i], i, p90i, p95i);
      i := i + 1;
    }
  }

  /** One iteration of the loop on metric `m` at position `i`: add to the
      totals, lower the minimum, raise the maximum, and take p90/p95 from
      the running total when `i` is their position. */
  function Step(s: Stat, m: Metric, i: nat, p90i: nat, p95i: nat): Stat
  {
    var total := s.duration + m.duration;
    s.(
      duration := total,
      nRead := s.nRead + m.nRead,
      min := if s.min > m.duration then m.duration else s.min,
      max := if s.max < m.duration then m.duration else s.max,
      p90 := if i == p90i then Quo(total, i + 1) else s.p90,
      p95 := if i == p95i then Quo(total, i + 1) else s.p95)
  }

  /** What one iteration does: the totals grow by the metric's duration and
      byte count, the new minimum is the smaller of the old one and the
      duration, the new maximum the larger, p90/p95 are the truncated
      running average at their own position and unchanged elsewhere, and
      the average and median are left alone. Kept apart from `Step` so that
      the loop proofs do not carry these facts. */
  lemma StepUpdates(s: Stat, m: Metric, i: nat, p90i: nat, p95i: nat)
    ensures var r := Step(s, m, i, p90i, p95i);
      && r.duration - s.duration == m.duration && r.nRead - s.nRead == m.nRead
      && r.min <= s.min && r.min <= m.duration && (r.min == s.min || r.min == m.duration)
      && r.max >= s.max && r.max >= m.duration && (r.max == s.max || r.max == m.duration)
      && (i == p90i ==> r.p90 == Quo(r.duration, i + 1))
      && (i != p90i ==> r.p90 == s.p90)
      && (i == p95i ==> r.p95 == Quo(r.duration, i + 1))
      && (i != p95i ==> r.p95 == s.p95)
      && r.avg == s.avg && r.med == s.med
  {
  }

  /** The same accumulator described without the loop: sums and extremes of
      the first `i` durations (the extremes still at their starting values
      when no metric has been seen), and the p90/p95 running averages once
      their positions have been passed. */
  function Partial(ms: seq<Metric>, i: nat, p90i: nat, p95i: nat): Stat
    requires i <= |ms| && p90i < |ms| && p95i < |ms|
  {
    var ds := Durations(ms);
    Stat(
      duration := Sum(ds[..i]),
      avg := 0,
      min := if i == 0 then MaxInt64 else SeqMin(ds[..i]),
      med := 0,
      max := if i == 0 then 0 else Max(0, SeqMax(ds[..i])),
      p90 := if i > p90i then PrefixAvg(ds, p90i + 1) else 0,
      p95 := if i > p95i then PrefixAvg(ds, p95i + 1) else 0,
      nRead := Sum(NReads(ms)[..i]))
  }

  /** One iteration takes the prefix statistics of the first `i` metrics to
      those of the first `i + 1`. */
  lemma PartialStep(ms: seq<Metric>, i: nat, p90i: nat, p95i: nat)
    requires i < |ms| && p90i < |ms| && p95i < |ms|
    ensures Partial(ms, i + 1, p90i, p95i) == Step(Partial(ms, i, p90i, p95i), ms[i], i, p90i, p95i)
  {
    var ds := Durations(ms);
    SumStep(ds, i);
    SumStep(NReads(ms), i);
    MinStep(ds, i);
    MaxStep(ds, i);
  }

  /** How the reference sum, minimum and maximum of a prefix grow when the
      loop takes one more element. */
  lemma SumStep(xs: seq<int>, i: nat)
    requires i < |xs|
    ensures Sum(xs[..i + 1]) == Sum(xs[..i]) + xs[i]
  {
    assert xs[..i + 1][..i] == xs[..i];
  }

  lemma MinStep(xs: seq<int>, i: nat)
    requires i < |xs|
    ensures SeqMin(xs[..i + 1]) == (if i == 0 || SeqMin(xs[..i]) > xs[i] then xs[i] else SeqMin(xs[..i]))
  {
    assert xs[..i + 1][..i] == xs[..i];
  }

  lemma MaxStep(xs: seq<int>, i: nat)
    requires i < |xs|
    ensures SeqMax(xs[..i + 1]) == (if i == 0 || SeqMax(xs[..i]) < xs[i] then xs[i] else SeqMax(xs[..i]))
  {
    assert xs[..i + 1][..i] == xs[..i];
  }
}
