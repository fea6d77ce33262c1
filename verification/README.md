# coza statistics aggregator, in Dafny

`coza` is a command-line HTTP load generator. Each request it issues is
recorded as a metric: how long the request took and how many body bytes it
read. When the run ends, `Calc` (stat.go) turns the metrics into one
statistics record. It makes a single pass over the metrics in the order they
arrived and computes:

- the total duration and the total bytes read;
- the minimum and the maximum duration;
- the average, with Go's truncating integer division;
- three positional "percentiles". The median is the duration found at
  position `percentIndex(n, 50)` in arrival order. p90 and p95 are running
  averages: the total of the first `percentIndex(n, p) + 1` durations,
  divided by that count, taken when the loop reaches that position. The
  metrics are never sorted.

This project models that aggregator and proves what it computes.

Files and modules:

- `go_int.dfy` (`GoInt`): the int64 range, and Go's integer division, which
  truncates toward zero.
- `seq_stats.dfy` (`SeqStats`): reference sum, minimum and maximum over
  integer sequences. Also the facts that reordering a sequence changes none
  of them.
- `stat.dfy` (`Coza`): `Metric`, `Stat` and `percentIndex`. `Summary` is a
  declarative description of the result. The `Calc` method models the
  source's pass: its loop `Scan` applies `Step`, which is one iteration of
  the source's loop body. The loop invariant and `PartialStep` connect the
  loop to prefix sums, the prefix minimum and the prefix maximum.
- `calc_properties.dfy` (`CalcProperties`): bounds, which figures do not
  depend on arrival order, the positional median, and the cases fixed by
  stat_test.go.
- `go_float.dfy` (`GoFloat`) and `percent_float.dfy` (`PercentFloat`):
  `percentIndex` as written, in float64 arithmetic with round-to-nearest,
  ties to even. This is compared with the exact rounding the rest of the
  model uses (see Findings).

Modelling choices:

- Durations and byte counts are Go `int64` values (`GoInt.Int64`). The
  accumulated fields of `Stat` are unbounded integers.
- `Calc` has no precondition, as in the source. A negative duration is
  handled as the source handles it: the maximum starts at 0 and so never
  drops below 0, and averages truncate toward zero.
- `Coza.PercentIndex` computes `max((n*p + 50) / 100 - 1, 0)` exactly. This
  is round-half-up of `n*p/100`, then one subtracted, with a floor at zero.

## Model

| member | source | states |
|---|---|---|
| Coza.Calc | stat.go:24-60 | For every input, the total duration is the sum of all durations and the total bytes is the sum of all byte counts. For no input, every field is 0 except the minimum, which stays `MaxInt64`. For non-empty input: the average is the total divided by the count, truncated toward zero; the minimum is the smallest duration; the maximum is the largest duration, floored at 0; the median is the duration at arrival position `PercentIndex(n, 50)`, which is in bounds; p90 and p95 are the truncated averages of the first `PercentIndex(n, p) + 1` durations. The result equals `Summary`. |
| Coza.Scan | stat.go:33-53 | When the loop ends, the accumulator holds the sums, the minimum and the floored maximum of all metrics, plus the running averages at positions p90i and p95i. Its loop invariant: after the loop body has run over the first `i` metrics, the accumulator holds the statistics of that prefix, with the minimum and maximum still at their starting values while the prefix is empty and the p90/p95 averages set once their positions have been passed. |
| Coza.PartialStep | stat.go:34-52 | One iteration of the loop body turns the statistics of the first `i` metrics into those of the first `i + 1`. The iteration adds to both totals, lowers the minimum, raises the maximum, and takes p90/p95 from the running total at their position. |
| Coza.StepUpdates | stat.go:34-52 | One loop iteration adds the duration and the byte count to the totals. The new minimum is the smaller of the old minimum and the duration; the new maximum is the larger of the old maximum and the duration. At position p90i (p95i), p90 (p95) becomes the new total divided by `i + 1`, truncated; otherwise it is unchanged. The average and median are untouched. |
| Coza.PercentIndex | stat.go:62-64 | The exact index `PercentIndex(n, p)` is 0 exactly when `n*p < 150`. Otherwise, with `k` the index, `k + 1` is `n*p/100` rounded to the nearest integer, with halves rounded up. This is the exact-rounding reading of the formula. |
| Coza.PercentIndexInBounds | stat.go:55-56 | For `n >= 1` and `p <= 100`, the exact index is below `n`. So in the model the lookup `metrics[medianIndex]` is always in bounds, and the loop always reaches the p90 and p95 positions. |
| GoInt.Quo | stat.go:57 | Go's `/` with a positive divisor: the quotient has the sign of the dividend and is no larger in magnitude. |
| GoInt.QuoTruncates | stat.go:57 | Go's `/` on int64: the remainder has the sign of the dividend and is smaller in magnitude than the divisor. |
| GoInt.QuoBetween | stat.go:47-57 | A dividend between `b*lo` and `b*hi` gives a truncated quotient between `lo` and `hi`, for dividends of either sign. |
| SeqStats.SeqMin | stat.go:38-40 | No element is smaller than the minimum. |
| SeqStats.MinAttained | stat.go:38-40 | The minimum is the element at some position. |
| SeqStats.SeqMax | stat.go:42-44 | No element is larger than the maximum. |
| SeqStats.MaxAttained | stat.go:42-44 | The maximum is the element at some position. |
| SeqStats.SumPermutation | stat.go:34-36 | Reordering a sequence leaves its sum unchanged. |
| SeqStats.MinPermutation | stat.go:38-40 | Reordering a sequence leaves its minimum unchanged. |
| SeqStats.MaxPermutation | stat.go:42-44 | Reordering a sequence leaves its maximum unchanged. |
| CalcProperties.ExtremesBoundEveryDuration | stat.go:25-44 | For any non-empty input, every duration lies between the minimum and the maximum, and the minimum is the duration of some metric. The maximum is the duration of some metric exactly when some duration is non-negative, because it starts at 0. |
| CalcProperties.DerivedWithinExtremes | stat.go:46-57 | For any non-empty input, the average, median, p90 and p95 each lie between the minimum and the maximum. |
| CalcProperties.OrderIndependentFigures | stat.go:33-44 | Two inputs that are permutations of each other give the same total, byte count, average, minimum and maximum. |
| CalcProperties.MedianDependsOnArrivalOrder | stat.go:55-56 | The median depends on arrival order. Durations [3, 1, 2] give a median of 1; the same values sorted give 2. |
| CalcProperties.SingleMetric | stat_test.go:74-90 | For the single metric (1, 2), the total, average, minimum, median, maximum, p90 and p95 are all 1, and the byte count is 2. |
| CalcProperties.PercentIndexTable | stat_test.go:74-115 | Exact index values: 0 for (1, 50), as the single-metric test needs; 9, 17 and 18 for n = 20 with p = 50, 90 and 95, as the twenty-metric test needs (positions 9, 17 and 18 read by lines 108-110). It also gives 0 for (0, 50), a value `Calc` never asks for, because it returns before computing any index for an empty input. |
| CalcProperties.TwentyMetrics | stat_test.go:93-115 | For any 20 metrics, the median is the duration at position 9, p90 is the truncated average of the first 18 durations, and p95 is that of the first 19. |
| PercentFloat.MedianIndexOf29 | stat.go:62-64 | For 29 metrics, the float64 formula as written gives median index 13. Exact rounding gives 14. |
| PercentFloat.AgreesAtTwenty | stat.go:62-64 | For 20 metrics, the float64 formula as written and the exact formula give the same indices, 9, 17 and 18, for p = 50, 90 and 95. |
| PercentFloat.AgreesAtOne | stat.go:62-64 | For 1 metric, the float64 formula as written and the exact formula both give index 0 for p = 50, 90 and 95. |
| PercentFloat.FloatPercentIndex | stat.go:63 | The formula as written, in terms of `x`, the float64 value of `float64(l)/100*p`: the index is 0 exactly when `x < 3/2`, and otherwise it is the `r` with `r + 1/2 <= x < r + 3/2`. This is the same characterization as `Coza.PercentIndex`, applied to the rounded float64 product instead of the exact `l*p/100`. |
| PercentFloat.IndexOfRounded | stat.go:63 | `math.Round(x) - 1`, floored at zero by `math.Max`, for a non-negative float64 `x`: 0 exactly when `x < 3/2`, otherwise the `r` with `r + 1/2 <= x < r + 3/2`. |
| GoFloat.ToFloat64 | stat.go:63 | A float64 result of `/` or `*`: a ratio with a positive denominator. |
| GoFloat.ToFloat64Nearest | stat.go:63 | Rounding to float64 puts the result on the grid of spacing `1 / 2^k` chosen by the exponent, within half a grid step of the exact value; zero is exact. |
| GoFloat.RoundHalfUpNearest | stat.go:63 | `math.Round` on a non-negative value returns the integer `r` with `r - 1/2 <= x < r + 1/2`: halves go up. |

## Findings

| source | as written | input that shows it | evidently intended | confidence | as-written member | corrected member |
|---|---|---|---|---|---|---|
| stat.go:62-64 | `math.Round(float64(l)/100*p)` is computed in float64 | l = 29, p = 50: 29/100 is stored as 0.28999999999999998, times 50 gives 14.499999999999998, which rounds to 14, so the median index is 13 | `l*p/100` = 14.5 rounded half up to 15, so index 14 | medium (halves may simply not have been considered), not executed | PercentFloat.MedianIndexOf29 | Coza.PercentIndex |

The rest of the model uses the exact `Coza.PercentIndex`. The two formulas
agree for 1 metric and for 20 metrics (`PercentFloat.AgreesAtOne`,
`PercentFloat.AgreesAtTwenty`), the two sizes stat_test.go uses with
metrics, so the indices its oracles rely on are the same under either.

## Left out

- Coza.Calc: positions come from the exact `PercentIndex`, not the float64 formula. Where the float64 formula misrounds a half, the source reads the median or takes p90/p95 one position earlier than this model does. 29 metrics is such a case for the median (`PercentFloat.MedianIndexOf29`).
- Coza.Calc: the int64 accumulators `duration` and `nRead` are unbounded here. The source's wrap-around on overflow is not modelled, and no realistic run comes near it.
- `float64(l)` is taken as exact in `PercentFloat.FloatPercentIndex`. This holds for every length up to 2^53.
- GoFloat.ToFloat64Nearest: states the half-step bound on the grid `Scale` picks, but does not prove that this grid is the float64 one (a 53-bit significand) for every input; that is established only for the worked values in `PercentFloat`. Values of 2^53 and above are not covered by the bound.
- Coza.PercentIndexInBounds: proves the bound for the exact index only. For the float64 formula as written, the model shows in-bounds indices only at 1, 20 and 29 metrics.
- The `Stat` and `Metric` interfaces and the `statImpl` getters (stat.go:8-22, 73-103) become record fields. The getters only return fields.
- `newStatImpl`, which the empty-input test compares against, is not part of this model. The empty case is stated in `Coza.Calc`'s contract instead.
- The worker pool and workers (`RunWorkerPool`, `RunWorker`, and the unused reflective fan-in in runner.go). Their substance is goroutines, channels and context cancellation.
- `Run`, `makeRequestContext`, `createRequest`, `doRequest` and `sizeOfBody` in runner.go. They wrap `net/http`, `net/url`, `context`, `io.Copy` and the wall clock, which are not visible here.
- `errorWrapper` and `newError`: error plumbing with no logic to verify.
- A result's failure cause (`Result.Err`): `Calc` reads only duration and byte count.
- cmd/coza/main.go: flag parsing, feeding the request channel, and formatting the report.
