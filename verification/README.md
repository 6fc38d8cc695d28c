# CloudWatch Nagios plugin — Dafny model

This project models the deterministic core of `check_cloudwatch.py`. That
script is a Nagios plugin that reads one Amazon CloudWatch statistic, or the
ratio of two statistics, and hands the value to a threshold check. The model
covers four parts of it:

- **Dimension parser** (`KeyValArgs`, module `Dimensions`). It turns
  `key=value[,key=value...]` into a map. The text is split on `,` and every
  pair on `=`. Segment 0 of a pair is the key and segment 1 is the value, and
  later keys overwrite earlier ones. A pair without `=` raises an index error,
  modelled as `Failure(PairWithoutEquals(pair))` for the first such pair.
  Python's `str.split` is modelled by `Text.Split`, with `Text.Join` as its
  inverse.
- **Single-metric probe** (`CloudWatchMetric.probe`, module `CloudWatch`).
  The request window ends at `now` and starts `period + lag` seconds earlier.
  The backend is a function from request to data points. No points gives no
  metric. Otherwise the result is one metric `cloudwatchmetric`, built from
  the first point's requested statistic and its `Unit`. A first point without
  the requested statistic raises a key error, modelled as
  `StatisticMissing`.
- **Ratio probe** (`CloudWatchRatioMetric.probe`). The dividend and divisor
  share period and lag. The dividend is probed first. If it has no metric,
  the index error is raised before the divisor is queried (`NoDividendData`).
  An empty divisor gives `NoDivisorData`. A zero divisor raises the division
  error (`DivisionByZero`). Otherwise the result is one metric. Its value is
  the quotient of the two first metrics. Its unit is `<dividend unit> / <divisor unit>`.
- **Summary** (`CloudWatchMetricSummary`, module `Summary`). `ok` and
  `problem` both return `CloudWatch Metric <namespace>:<metric> with
  dimenstions <dimensions>`, keeping the source's misspelling. Neither looks
  at the results.

Where the intended plugin behaviour and the code differ, the model follows
the code. A zero divisor is not turned into a status: the division raises,
modelled as the error value `DivisionByZero`. Ratio mode does not check that
the divisor arguments are present. The single-metric probe uses the first
point the backend returns, not the most recent one.

## Model

| member | source | states |
|---|---|---|
| Text.Split | check_cloudwatch.py:64-65 | `str.split` on one character: never empty, no part contains the separator, and there are at least two parts exactly when the separator occurs |
| Text.JoinSplit | check_cloudwatch.py:64-65 | joining the parts of a split with the separator gives back the input, so no character is lost or added |
| Text.SplitJoin | check_cloudwatch.py:64-65 | splitting a join of separator-free parts gives back those parts, so split and join are inverse |
| Text.IndexOf | check_cloudwatch.py:65 | finds the first occurrence of a character: absent exactly when the character does not occur, otherwise a position holding it with none before it |
| Text.SplitFirstTwoParts | check_cloudwatch.py:65-66 | segment 0 is the text before the first separator; segment 1 is the separator-free text after it, running to the next separator or the end |
| Dimensions.ParsePairsOutcome | check_cloudwatch.py:64-66 | the pair loop finishes exactly when every pair contains `=`; otherwise the error names the first pair without one |
| Dimensions.ParsePairsKeys | check_cloudwatch.py:64-66 | on success the key set is the initial keys plus the key of every pair, and nothing else |
| Dimensions.ParsePairsKeepsOthers | check_cloudwatch.py:63-66 | a key that no pair names keeps its earlier value |
| Dimensions.ParsePairsLastWins | check_cloudwatch.py:64-66 | each key is bound to the value of the last pair that names it |
| Dimensions.ParseOutcome | check_cloudwatch.py:62-67 | the dimension argument parses exactly when every comma-separated pair has `=`; a failure names the first pair without `=` |
| Dimensions.ParseMeaning | check_cloudwatch.py:62-67 | a parsed map has the keys of the comma-separated pairs and no others, each bound to the value of its last pair |
| Dimensions.KeyAndValueOfPair | check_cloudwatch.py:65-66 | a key is the text before the first `=`; a value is the text between the first and the second `=`, or up to the end of the pair |
| Dimensions.ParseEmptyFails | check_cloudwatch.py:64-66 | the empty argument fails, because it splits into one empty pair without `=` |
| Dimensions.ParseRender | check_cloudwatch.py:62-67 | round trip: rendering separator-free dimensions as `name=value,...` and parsing the text back gives exactly those names, each bound to its last value |
| Dimensions.ParseSinglePair | check_cloudwatch.py:64-66 | an argument with a single pair gives a map with one entry |
| Dimensions.ParseTwoPairs | check_cloudwatch.py:64-66 | `k1=v1,k2=v2` parses to {k1: v1} updated with {k2: v2}: two names give both entries, and a repeated name keeps the second value |
| Dimensions.ParseDropsAfterSecondEquals | check_cloudwatch.py:65-66 | `k=v=rest` parses to {k: v}; text after a second `=` is dropped |
| Dimensions.ParseMissingEqualsFails | check_cloudwatch.py:64-66 | `k=v,bad` with no `=` in `bad` fails on the pair `bad`, even though an earlier pair was fine |
| CloudWatch.QueryFor | check_cloudwatch.py:19-24 | the request window ends at `now` and is `period + lag` seconds long; period, metric, namespace, statistic and dimensions are passed through unchanged |
| CloudWatch.FromDatapoints | check_cloudwatch.py:25-29 | no points give an empty result; otherwise exactly one metric from the first point's requested statistic and unit, or the missing-statistic error when that point lacks it |
| CloudWatch.Probe | check_cloudwatch.py:16-29 | the probe returns at most one metric; it returns none exactly when the backend returns no points for the window ending at `now`; a returned metric carries the first point's statistic and unit |
| CloudWatch.FromDatapointsUsesFirstOnly | check_cloudwatch.py:28-29 | points after the first never change the probe result |
| CloudWatch.ProbeSinglePoint | check_cloudwatch.py:25-29 | a backend answer of one point that has the statistic gives exactly that point's value and unit |
| CloudWatch.RatioUnit | check_cloudwatch.py:41 | the ratio unit is the dividend unit, then the literal ` / `, then the divisor unit |
| CloudWatch.Divide | check_cloudwatch.py:41-43 | the division fails exactly when the divisor is zero; otherwise the quotient times the divisor gives the dividend, under the composed unit |
| CloudWatch.ProbeRatio | check_cloudwatch.py:37-43 | the ratio succeeds exactly when both sub-probes give a metric and the divisor is not zero; an empty dividend or divisor gives the matching no-data error; a failing dividend probe, or a failing divisor probe after a dividend metric, passes its own error through unchanged; a zero divisor gives `DivisionByZero`; on success the result is one metric, the quotient of the two first metrics, under the composed unit |
| CloudWatch.RatioWindowsAgree | check_cloudwatch.py:33-35 | the dividend and divisor requests use the ratio's period and a window of `period + lag` seconds; their windows coincide because both halves are given the same clock reading (each half's probe reads the clock itself, at lines 19 and 21) |
| CloudWatch.RatioUnitExample | check_cloudwatch.py:41 | `Percent` over `Count` gives the unit `Percent / Count` |
| CloudWatch.ProbeResource | check_cloudwatch.py:107-110 | the selected resource yields at most one metric, and in ratio mode a success is exactly one metric |
| Summary.FullMetric | check_cloudwatch.py:54 | the full metric name is the namespace, a colon, then the metric name |
| Summary.Ok | check_cloudwatch.py:53-55 | the summary is the fixed lead, the full metric name, the fixed ` with dimenstions ` text and the dimensions, in that order |
| Summary.Problem | check_cloudwatch.py:57-59 | the problem summary has the same lead, the same length and ends with the dimensions |
| Summary.OkIsProblem | check_cloudwatch.py:53-59 | `ok` and `problem` give the same text, whatever results either is given |
| Summary.NamespaceEndsAtFirstColon | check_cloudwatch.py:54-55 | with a colon-free namespace, the first colon after the lead ends the namespace |
| Summary.SummaryIdentifiesMetric | check_cloudwatch.py:53-55 | with colon-free namespaces and dimension texts of equal length, equal summaries have equal namespace, metric and dimensions |

## Left out

- CloudWatch access (`boto.connect_cloudwatch`, `get_metric_statistics`, lines 18 and 23-24) is network I/O. The backend is the `Backend` parameter, a function from request to data points.
- The wall clock (`datetime.utcnow()`, lines 19 and 21) is the parameter `now`, in seconds. The source reads the clock twice, so the real end of the window can be slightly later than `now`. Both halves of a ratio also read their own clock; the model gives them the same `now`.
- Threshold ranges and their classification (`nagiosplugin.ScalarContext`, line 114), the exit codes and `check.main` (line 116) live in the `nagiosplugin` library. That library is not part of this model.
- The `@nagiosplugin.guarded` decorator (line 69) turns raised errors into an UNKNOWN status. The model stops at the error values (`ParseError`, `ProbeError`).
- Argument parsing (lines 72-105) is not modelled: defaults, choices, `int()` coercion of period and lag, and `--verbose`. Logging (lines 17 and 20) is left out too. Period and lag are plain integers. The statistic is one of five constructors, as the `choices` list allows.
- Absent arguments are not modelled. An absent `--dimensions` is `None` in the source; the model always has a map. An absent divisor statistic in ratio mode is not representable, because ratio mode does not validate the divisor arguments (lines 107-108).
- Data points are assumed to carry a `Unit`. A point without one would raise a key error in the source.
- Floating-point division is modelled as exact `real` division. Nothing is proved about rounding.
- The dimensions in the summary are the source's `repr` of a Python dict. They are an opaque string here.
