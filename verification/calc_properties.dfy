/** Properties of the aggregator's result that relate it to the input as a
    whole: bounds, independence from arrival order where it holds, the
    positional quirk of the percentiles, and the fixed cases the package's
    own tests pin down. */
module CalcProperties {
  import opened GoInt
  import opened SeqStats
  import opened Coza

  /** For any non-empty input every duration lies between the minimum and
      the maximum, and the minimum is the duration of some metric. The
      maximum starts at zero, so it is the duration of some metric exactly
      when some duration is non-negative; with all durations negative it
      stays zero. */
  lemma ExtremesBoundEveryDuration(ms: seq<Metric>)
    requires |ms| > 0
    ensures exists i :: 0 <= i < |ms| && Summary(ms).min == ms[i].duration
    ensures (exists i :: 0 <= i < |ms| && Summary(ms).max == ms[i].duration)
        <==> (exists i :: 0 <= i < |ms| && ms[i].duration >= 0)
    ensures forall i :: 0 <= i < |ms| ==> Summary(ms).min <= ms[i].duration <= Summary(ms).max
  {
    var ds := Durations(ms);
    var lo, hi := SeqMin(ds), SeqMax(ds);
    var a := MinAttained(ds);
    var b := MaxAttained(ds);
    assert ms[a].duration == lo && ms[b].duration == hi;
    if exists i :: 0 <= i < |ms| && ms[i].duration >= 0 {
      var i :| 0 <= i < |ms| && ms[i].duration >= 0;
      assert hi >= ds[i] >= 0;
    }
  }

  /** Every derived figure — average, median, p90 and p95 — lies between
      the minimum and the maximum, whatever the signs of the durations:
      the averages truncate toward zero and the maximum is never below
      zero. */
  lemma DerivedWithinExtremes(ms: seq<Metric>)
    requires |ms| > 0
    ensures var s := Summary(ms);
      && s.min <= s.avg <= s.max
      && s.min <= s.med <= s.max
      && s.min <= s.p90 <= s.max
      && s.min <= s.p95 <= s.max
  {
    var ds, n := Durations(ms), |ms|;
    var lo, hi := SeqMin(ds), SeqMax(ds);
    SumBetween(ds, lo, hi);
    QuoBetween(Sum(ds), n, lo, hi);
    PrefixAvgBetween(ds, PercentIndex(n, 90) + 1, lo, hi);
    PrefixAvgBetween(ds, PercentIndex(n, 95) + 1, lo, hi);
  }

  /** The running average of a prefix of values that all lie between `lo`
      and `hi` lies between them too. */
  lemma PrefixAvgBetween(ds: seq<int>, count: nat, lo: int, hi: int)
    requires 0 < count <= |ds|
    requires forall i :: 0 <= i < |ds| ==> lo <= ds[i] <= hi
    ensures lo <= PrefixAvg(ds, count) <= hi
  {
    var prefix := ds[..count];
    assert forall i :: 0 <= i < |prefix| ==> prefix[i] == ds[i];
    SumBetween(prefix, lo, hi);
    QuoBetween(Sum(prefix), count, lo, hi);
  }

  /** Total, byte count, average, minimum and maximum do not depend on the
      order in which the metrics arrive. */
  lemma OrderIndependentFigures(ms: seq<Metric>, ms': seq<Metric>)
    requires multiset(ms) == multiset(ms')
    ensures Summary(ms).duration == Summary(ms').duration
    ensures Summary(ms).nRead == Summary(ms').nRead
    ensures Summary(ms).avg == Summary(ms').avg
    ensures Summary(ms).min == Summary(ms').min
    ensures Summary(ms).max == Summary(ms').max
  {
    assert |ms| == |multiset(ms)| == |ms'|;
    MapPermutation(ms, ms', DurationOf);
    MapPermutation(ms, ms', NReadOf);
    SumPermutation(Durations(ms), Durations(ms'));
    SumPermutation(NReads(ms), NReads(ms'));
    if |ms| > 0 {
      MinPermutation(Durations(ms), Durations(ms'));
      MaxPermutation(Durations(ms), Durations(ms'));
    }
  }

  /** The median is positional, not a value median: the same three
      measurements reported in a different order give a different median,
      and in arrival order [3, 1, 2] it is 1 although the value median is 2. */
  lemma MedianDependsOnArrivalOrder()
    ensures var arrived := [Metric(3, 0), Metric(1, 0), Metric(2, 0)];
      var sorted := [Metric(1, 0), Metric(2, 0), Metric(3, 0)];
      && multiset(arrived) == multiset(sorted)
      && Summary(arrived).med == 1
      && Summary(sorted).med == 2
  {
  }

  /** The single-metric case of the package's tests: every duration figure
      equals the one duration and the byte count is its byte count. */
  lemma SingleMetric()
    ensures Summary([Metric(1, 2)]) == Stat(1, 1, 1, 1, 1, 1, 1, 2)
  {
    var ms := [Metric(1, 2)];
    assert Durations(ms) == [1];
    assert NReads(ms) == [2];
    assert [1][..1] == [1];
  }

  /** The index table for the sizes the tests use. */
  lemma PercentIndexTable()
    ensures PercentIndex(0, 50) == 0 && PercentIndex(1, 50) == 0
    ensures PercentIndex(20, 50) == 9 && PercentIndex(20, 90) == 17 && PercentIndex(20, 95) == 18
  {
  }

  /** The twenty-metric case of the package's tests: the median is the
      tenth duration in arrival order, p90 the truncated average of the
      first 18 durations and p95 that of the first 19. */
  lemma TwentyMetrics(ms: seq<Metric>)
    requires |ms| == 20
    ensures Summary(ms).med == ms[9].duration
    ensures Summary(ms).p90 == Quo(Sum(Durations(ms)[..18]), 18)
    ensures Summary(ms).p95 == Quo(Sum(Durations(ms)[..19]), 19)
  {
    PercentIndexTable();
  }
}
