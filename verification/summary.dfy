/** The status-line summary of the plugin. The same text is produced whether
    the check passed or not, and it does not look at the results. */
module Summary {
  import CloudWatch

  /** What the summary knows about the checked metric. The dimensions are the
      already rendered text of the dimension map. */
  datatype MetricSummary = MetricSummary(namespace: string, metric: string, dimensions: string, statistic: CloudWatch.Statistic)

  const Lead := "CloudWatch Metric "
  const Middle := " with dimenstions "

  /** `namespace:metric`, the full name of the metric. */
  function FullMetric(s: MetricSummary): (full: string)
    ensures |full| == |s.namespace| + 1 + |s.metric|
    ensures full[..|s.namespace|] == s.namespace && full[|s.namespace|] == ':'
    ensures full[|s.namespace| + 1..] == s.metric
  {
    s.namespace + ":" + s.metric
  }

  /** The summary shown when every result is fine. The text starts with the
      fixed lead, continues with the full metric name and ends with the
      dimensions; the misspelling "dimenstions" is part of the output. */
  function Ok<R>(s: MetricSummary, results: R): (text: string)
    ensures |text| == |Lead| + |FullMetric(s)| + |Middle| + |s.dimensions|
    ensures text[..|Lead|] == Lead
    ensures text[|Lead|..|Lead| + |FullMetric(s)|] == FullMetric(s)
    ensures text[|Lead| + |FullMetric(s)|..|text| - |s.dimensions|] == Middle
    ensures text[|text| - |s.dimensions|..] == s.dimensions
  {
    Lead + FullMetric(s) + Middle + s.dimensions
  }

  /** The summary shown when some result is a problem. */
  function Problem<R>(s: MetricSummary, results: R): (text: string)
    ensures |text| == |Lead| + |FullMetric(s)| + |Middle| + |s.dimensions|
    ensures text[..|Lead|] == Lead
    ensures text[|text| - |s.dimensions|..] == s.dimensions
  {
    Lead + FullMetric(s) + Middle + s.dimensions
  }

  /** Both summaries are the same text, whatever the results of either call. */
  lemma OkIsProblem<R>(s: MetricSummary, results: R, others: R)
    ensures Ok(s, results) == Problem(s, others)
  {
  }

  /** In the text, the namespace runs from the end of the lead up to the
      first colon. */
  lemma NamespaceEndsAtFirstColon<R>(s: MetricSummary, r: R)
    requires ':' !in s.namespace
    ensures Ok(s, r)[|Lead| + |s.namespace|] == ':'
    ensures forall j :: |Lead| <= j < |Lead| + |s.namespace| ==> Ok(s, r)[j] != ':'
  {
    var text := Ok(s, r);
    assert text[|Lead|..|Lead| + |FullMetric(s)|] == FullMetric(s);
    forall j | |Lead| <= j < |Lead| + |s.namespace|
      ensures text[j] != ':'
    {
      assert text[j] == FullMetric(s)[j - |Lead|] == s.namespace[j - |Lead|];
    }
  }

  /** The summary determines the namespace, the metric name and the
      dimensions, given how long the rendered dimensions are and that the
      namespace holds no colon. */
  lemma {:induction false} SummaryIdentifiesMetric<R>(s: MetricSummary, t: MetricSummary, r: R)
    requires ':' !in s.namespace && ':' !in t.namespace
    requires |s.dimensions| == |t.dimensions|
    requires Ok(s, r) == Ok(t, r)
    ensures s.namespace == t.namespace && s.metric == t.metric && s.dimensions == t.dimensions
  {
    NamespaceEndsAtFirstColon(s, r);
    NamespaceEndsAtFirstColon(t, r);
    assert |s.namespace| == |t.namespace|;
    var text := Ok(s, r);
    assert FullMetric(s) == text[|Lead|..|Lead| + |FullMetric(s)|] == FullMetric(t);
    assert s.namespace == FullMetric(s)[..|s.namespace|];
  }
}
