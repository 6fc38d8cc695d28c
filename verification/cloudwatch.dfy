/** The metric resources of the plugin: a single CloudWatch statistic and the
    ratio of two statistics. The CloudWatch connection is a parameter of the
    model (`Backend`), and so is the current time. */
module CloudWatch {
  import opened Wrappers

  /** The aggregations CloudWatch can compute over a period. */
  datatype Statistic = Average | Sum | SampleCount | Maximum | Minimum

  /** One point of the series the backend returns: its timestamp, its unit
      and the statistics computed for it. */
  datatype Datapoint = Datapoint(timestamp: int, unit: string, stats: map<Statistic, real>)

  /** A measured value handed on to the threshold check. */
  datatype Metric = Metric(name: string, value: real, uom: string)

  /** Every metric the plugin produces is named this. */
  const MetricName := "cloudwatchmetric"

  /** Which metric to read: namespace, metric name, dimensions and statistic. */
  datatype Source = Source(namespace: string, metric: string, dimensions: map<string, string>, statistic: Statistic)

  /** A single-metric resource: the source plus the period and the lag, in seconds. */
  datatype MetricSpec = MetricSpec(source: Source, period: int, lag: int)

  /** The statistics request sent to the backend, with times in seconds. */
  datatype Query = Query(
    period: int, start: int, end: int,
    metric: string, namespace: string, statistic: Statistic, dimensions: map<string, string>)

  /** The backend: maps a request to the data points it returns. */
  type Backend = Query -> seq<Datapoint>

  /** Why a probe raises instead of returning metrics. */
  datatype ProbeError =
    | StatisticMissing(statistic: Statistic)  // the first point lacks the requested statistic
    | NoDividendData                          // the dividend probe returned no metric
    | NoDivisorData                           // the divisor probe returned no metric
    | DivisionByZero                          // the divisor value is zero

  /** The request for a spec at time `now`: the window ends now and reaches
      back one period plus the lag. */
  function QueryFor(spec: MetricSpec, now: int): (q: Query)
    ensures q.end == now
    ensures q.end - q.start == spec.period + spec.lag
    ensures q.period == spec.period
    ensures q.metric == spec.source.metric && q.namespace == spec.source.namespace
    ensures q.statistic == spec.source.statistic && q.dimensions == spec.source.dimensions
  {
    Query(spec.period, now - spec.period - spec.lag, now,
          spec.source.metric, spec.source.namespace, spec.source.statistic, spec.source.dimensions)
  }

  /** The pure part of the single-metric probe: no points give no metric;
      otherwise exactly one metric built from the first point's requested
      statistic and unit, and the remaining points are ignored. */
  function FromDatapoints(statistic: Statistic, points: seq<Datapoint>): (r: Result<seq<Metric>, ProbeError>)
    ensures |points| == 0 ==> r == Success([])
    ensures r.Failure? <==> |points| > 0 && statistic !in points[0].stats
    ensures r.Failure? ==> r.error == StatisticMissing(statistic)
    ensures r.Success? && |points| > 0 ==>
      |r.value| == 1 && r.value[0].name == MetricName
      && r.value[0].value == points[0].stats[statistic] && r.value[0].uom == points[0].unit
  {
    if |points| == 0 then
      Success([])
    else
      var stat := points[0];
      if statistic in stat.stats then
        Success([Metric(MetricName, stat.stats[statistic], stat.unit)])
      else
        Failure(StatisticMissing(statistic))
  }

  /** The single-metric probe: one query for the window ending at `now`. */
  function Probe(spec: MetricSpec, now: int, backend: Backend): (r: Result<seq<Metric>, ProbeError>)
    ensures r.Success? ==> |r.value| <= 1
    ensures r.Success? && |r.value| == 0 <==> |backend(QueryFor(spec, now))| == 0
    ensures r.Success? && |r.value| == 1 ==>
      var first := backend(QueryFor(spec, now))[0];
      spec.source.statistic in first.stats
      && r.value[0] == Metric(MetricName, first.stats[spec.source.statistic], first.unit)
  {
    FromDatapoints(spec.source.statistic, backend(QueryFor(spec, now)))
  }

  /** Only the first data point matters to the probe. */
  lemma FromDatapointsUsesFirstOnly(statistic: Statistic, p: seq<Datapoint>, q: seq<Datapoint>)
    requires |p| > 0 && |q| > 0 && p[0] == q[0]
    ensures FromDatapoints(statistic, p) == FromDatapoints(statistic, q)
  {
  }

  /** A backend that returns exactly one point carrying the statistic yields
      exactly that point's value and unit. */
  lemma ProbeSinglePoint(spec: MetricSpec, now: int, backend: Backend, p: Datapoint)
    requires backend(QueryFor(spec, now)) == [p]
    requires spec.source.statistic in p.stats
    ensures Probe(spec, now, backend) == Success([Metric(MetricName, p.stats[spec.source.statistic], p.unit)])
  {
  }

  /** The ratio resource: dividend and divisor share the period and the lag. */
  datatype RatioSpec = RatioSpec(dividend: Source, divisor: Source, period: int, lag: int) {
    function DividendSpec(): MetricSpec { MetricSpec(dividend, period, lag) }
    function DivisorSpec(): MetricSpec { MetricSpec(divisor, period, lag) }
  }

  /** The unit of a ratio: dividend unit, a spaced slash, divisor unit. */
  function RatioUnit(dividendUnit: string, divisorUnit: string): (u: string)
    ensures |u| == |dividendUnit| + 3 + |divisorUnit|
    ensures u[..|dividendUnit|] == dividendUnit
    ensures u[|dividendUnit|..|dividendUnit| + 3] == " / "
    ensures u[|dividendUnit| + 3..] == divisorUnit
  {
    dividendUnit + " / " + divisorUnit
  }

  /** Divides the dividend metric by the divisor metric; a zero divisor
      raises. The quotient is the value that multiplied by the divisor gives
      back the dividend. */
  function Divide(dividend: Metric, divisor: Metric): (r: Result<Metric, ProbeError>)
    ensures r.Failure? <==> divisor.value == 0.0
    ensures r.Failure? ==> r.error == DivisionByZero
    ensures r.Success? ==>
      && r.value.name == MetricName
      && r.value.value * divisor.value == dividend.value
      && r.value.uom == RatioUnit(dividend.uom, divisor.uom)
  {
    var unit := RatioUnit(dividend.uom, divisor.uom);
    if divisor.value == 0.0 then Failure(DivisionByZero)
    else Success(Metric(MetricName, dividend.value / divisor.value, unit))
  }

  /** The ratio probe. The dividend is probed first, and an empty dividend
      result stops the probe before the divisor is queried; then the divisor
      is probed and the first metrics of both are divided. */
  function ProbeRatio(spec: RatioSpec, now: int, backend: Backend): (r: Result<seq<Metric>, ProbeError>)
    ensures r.Success? <==>
      && Probe(spec.DividendSpec(), now, backend).Success?
      && |Probe(spec.DividendSpec(), now, backend).value| == 1
      && Probe(spec.DivisorSpec(), now, backend).Success?
      && |Probe(spec.DivisorSpec(), now, backend).value| == 1
      && Probe(spec.DivisorSpec(), now, backend).value[0].value != 0.0
    ensures Probe(spec.DividendSpec(), now, backend) == Success([]) ==> r == Failure(NoDividendData)
    ensures (Probe(spec.DividendSpec(), now, backend).Success?
      && |Probe(spec.DividendSpec(), now, backend).value| == 1
      && Probe(spec.DivisorSpec(), now, backend) == Success([])) ==> r == Failure(NoDivisorData)
    ensures Probe(spec.DividendSpec(), now, backend).Failure? ==>
      r == Failure(Probe(spec.DividendSpec(), now, backend).error)
    ensures (Probe(spec.DividendSpec(), now, backend).Success?
      && |Probe(spec.DividendSpec(), now, backend).value| == 1
      && Probe(spec.DivisorSpec(), now, backend).Failure?) ==>
      r == Failure(Probe(spec.DivisorSpec(), now, backend).error)
    ensures (Probe(spec.DividendSpec(), now, backend).Success?
      && |Probe(spec.DividendSpec(), now, backend).value| == 1
      && Probe(spec.DivisorSpec(), now, backend).Success?
      && |Probe(spec.DivisorSpec(), now, backend).value| == 1
      && Probe(spec.DivisorSpec(), now, backend).value[0].value == 0.0) ==>
      r == Failure(DivisionByZero)
    ensures r.Success? ==>
      var n := Probe(spec.DividendSpec(), now, backend).value[0];
      var d := Probe(spec.DivisorSpec(), now, backend).value[0];
      |r.value| == 1 && r.value[0].name == MetricName
      && r.value[0].value * d.value == n.value
      && r.value[0].uom == n.uom + " / " + d.uom
  {
    var dividend :- Probe(spec.DividendSpec(), now, backend);
    if |dividend| == 0 then
      Failure(NoDividendData)
    else
      var divisor :- Probe(spec.DivisorSpec(), now, backend);
      if |divisor| == 0 then
        Failure(NoDivisorData)
      else
        var ratio :- Divide(dividend[0], divisor[0]);
        Success([ratio])
  }

  /** Both halves of a ratio ask for the same aggregation period over a
      window of the same length (`period + lag` seconds).  The windows also
      start and end at the same instant here only because both halves are
      given the same `now`; two reads of the clock could differ slightly. */
  lemma RatioWindowsAgree(spec: RatioSpec, now: int)
    ensures QueryFor(spec.DividendSpec(), now).period == QueryFor(spec.DivisorSpec(), now).period == spec.period
    ensures QueryFor(spec.DividendSpec(), now).end - QueryFor(spec.DividendSpec(), now).start == spec.period + spec.lag
    ensures QueryFor(spec.DivisorSpec(), now).end - QueryFor(spec.DivisorSpec(), now).start == spec.period + spec.lag
    ensures QueryFor(spec.DividendSpec(), now).start == QueryFor(spec.DivisorSpec(), now).start
    ensures QueryFor(spec.DividendSpec(), now).end == QueryFor(spec.DivisorSpec(), now).end
  {
  }

  /** `Percent` over `Count` is written `Percent / Count`. */
  lemma RatioUnitExample()
    ensures RatioUnit("Percent", "Count") == "Percent / Count"
  {
  }

  /** The resource the command line selects: one metric, or a ratio. */
  datatype Resource = Single(spec: MetricSpec) | Ratio(ratio: RatioSpec)

  /** Probes whichever resource was selected. */
  function ProbeResource(res: Resource, now: int, backend: Backend): (r: Result<seq<Metric>, ProbeError>)
    ensures r.Success? ==> |r.value| <= 1
    ensures res.Ratio? && r.Success? ==> |r.value| == 1
  {
    match res
    case Single(spec) => Probe(spec, now, backend)
    case Ratio(ratio) => ProbeRatio(ratio, now, backend)
  }
}
